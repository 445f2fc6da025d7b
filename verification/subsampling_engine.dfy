/** The readiness and staleness rules of SubsamplingEngine.kt, as a sequential state
    machine. The engine holds an image source factory, a tile decoder, a tile manager
    and the image info; it publishes `ready`, the tile lists, the sample size, the
    image load rect and the tile grid size map. The asynchronous creation of a tile
    decoder is split into the launch (`ResetTileDecoder`) and a separate completion
    event (`DecoderCreated`). The tile manager is opaque: an identity, its tile grids,
    and the values its callbacks report. Flows, coroutine scopes and the lifecycle
    observer plumbing are not modelled. */
module SubsamplingEngine {
  import opened Wrappers
  import opened Geometry
  import IntSizes
  import TileDecoders

  /** `ImageSource.Factory`, compared by value; `key` identifies the image. */
  datatype ImageSourceFactory = ImageSourceFactory(key: string)

  /** A `TileSnapshot` the manager reports, kept opaque. */
  datatype TileSnapshot = TileSnapshot(coordinate: IntOffset, srcRect: Rect, state: int)

  /** One entry of `TileManager.sortedTileGridMap`: a sample size and the grid
      coordinates of its tiles, in row-major order. */
  datatype TileGridEntry = TileGridEntry(sampleSize: int, tileCoordinates: seq<IntOffset>)

  /** A `TileManager`: compared by identity, as the callbacks do with `==` on a class
      without `equals`. */
  datatype TileManager = TileManager(id: nat, sortedTileGridMap: seq<TileGridEntry>)

  /** The pending `resetTileDecoderJob`: the factory and content size it was started with. */
  datatype DecoderJob = DecoderJob(factory: ImageSourceFactory, contentSize: IntSize)

  /** How the decoder creation job ended: a new tile decoder, or the
      `CreateTileDecoderException` with the image info it may carry. */
  datatype DecoderCreation = Created(decoder: TileDecoders.TileDecoder) | CreateFailed(imageInfo: Option<TileDecoders.ImageInfo>)

  /** The parameters `refreshTiles` forwards to the tile manager. */
  datatype RefreshRequest = RefreshRequest(contentVisibleRect: Rect, scale: real, rotation: int,
                                           continuousTransformType: int, caller: string)

  datatype Engine = Engine(
    attached: bool,
    imageSourceFactory: Option<ImageSourceFactory>,
    imageKey: Option<string>,
    contentSize: IntSize,
    preferredTileSize: IntSize,
    stopped: bool,
    tileDecoder: Option<TileDecoders.TileDecoder>,
    resetTileDecoderJob: Option<DecoderJob>,
    tileManager: Option<TileManager>,
    nextManagerId: nat,
    imageInfo: Option<TileDecoders.ImageInfo>,
    ready: bool,
    foregroundTiles: seq<TileSnapshot>,
    backgroundTiles: seq<TileSnapshot>,
    sampleSize: int,
    imageLoadRect: Rect,
    tileGridSizeMap: map<int, IntOffset>,
    closingDecoders: seq<TileDecoders.TileDecoder>,
    cleanedManagers: seq<TileManager>)

  /** A fresh engine: nothing set, nothing published. */
  function Initial(attached: bool): (e: Engine)
    ensures Inv(e)
  {
    Engine(attached, None, None, ZeroSize, ZeroSize, false, None, None, None, 0, None, false,
           [], [], 0, ZeroRect, map[], [], [])
  }

  // ---------------------------------------------------------------------------
  // Published state

  /** The published tile state is the cleared one. */
  predicate PublishedCleared(e: Engine) {
    e.tileGridSizeMap == map[] && e.foregroundTiles == [] && e.backgroundTiles == []
    && e.sampleSize == 0 && e.imageLoadRect == ZeroRect
  }

  /** `IntOffsetCompat(x + 1, y + 1)` of the last tile coordinate: the grid size. */
  function GridSizeOf(entry: TileGridEntry): IntOffset
    requires |entry.tileCoordinates| > 0
  {
    var last := entry.tileCoordinates[|entry.tileCoordinates| - 1];
    IntOffset(last.x + 1, last.y + 1)
  }

  /** `sortedTileGridMap.associate { sampleSize to last coordinate + 1 }`: a later entry
      with the same sample size replaces an earlier one. Every entry must have a tile,
      as `last()` demands. */
  function GridSizeMap(entries: seq<TileGridEntry>): (m: map<int, IntOffset>)
    requires GridsNonEmpty(entries)
    decreases |entries|
  {
    if |entries| == 0 then map[]
    else GridSizeMap(entries[..|entries| - 1])[entries[|entries| - 1].sampleSize := GridSizeOf(entries[|entries| - 1])]
  }

  /** The grid size map has one key per sample size in the grids. */
  lemma {:induction false} GridSizeMapKeys(entries: seq<TileGridEntry>)
    requires GridsNonEmpty(entries)
    ensures forall k :: k in GridSizeMap(entries) <==> exists i :: 0 <= i < |entries| && entries[i].sampleSize == k
    decreases |entries|
  {
    if |entries| > 0 {
      var init := entries[..|entries| - 1];
      GridSizeMapKeys(init);
      forall k
        ensures k in GridSizeMap(entries) <==> exists i :: 0 <= i < |entries| && entries[i].sampleSize == k
      {
        if exists i :: 0 <= i < |init| && init[i].sampleSize == k {
          var i :| 0 <= i < |init| && init[i].sampleSize == k;
          assert entries[i].sampleSize == k;
        }
        if exists i :: 0 <= i < |entries| && entries[i].sampleSize == k {
          var i :| 0 <= i < |entries| && entries[i].sampleSize == k;
          if i < |init| {
            assert init[i].sampleSize == k;
          }
        }
      }
    }
  }

  /** Each key of the grid size map holds the grid size of the last entry with that
      sample size. */
  lemma {:induction false} GridSizeMapLastEntryWins(entries: seq<TileGridEntry>)
    requires GridsNonEmpty(entries)
    ensures forall i :: 0 <= i < |entries| && LastWithSampleSize(entries, i) ==>
              entries[i].sampleSize in GridSizeMap(entries)
              && GridSizeMap(entries)[entries[i].sampleSize] == GridSizeOf(entries[i])
    decreases |entries|
  {
    if |entries| > 0 {
      var init := entries[..|entries| - 1];
      GridSizeMapLastEntryWins(init);
      forall i | 0 <= i < |entries| && LastWithSampleSize(entries, i)
        ensures entries[i].sampleSize in GridSizeMap(entries)
        ensures GridSizeMap(entries)[entries[i].sampleSize] == GridSizeOf(entries[i])
      {
        if i < |init| {
          assert entries[|entries| - 1].sampleSize != entries[i].sampleSize;
          assert LastWithSampleSize(init, i);
          assert init[i] == entries[i];
        }
      }
    }
  }

  /** No later entry has the sample size of entry `i`. */
  predicate LastWithSampleSize(entries: seq<TileGridEntry>, i: int)
    requires 0 <= i < |entries|
  {
    forall j :: i < j < |entries| ==> entries[j].sampleSize != entries[i].sampleSize
  }

  /** With distinct sample sizes, as `sortedTileGridMap` has, every entry appears in
      the map with its own grid size. */
  lemma GridSizeMapOfDistinctSampleSizes(entries: seq<TileGridEntry>)
    requires GridsNonEmpty(entries)
    requires forall i, j :: 0 <= i < j < |entries| ==> entries[i].sampleSize != entries[j].sampleSize
    ensures forall i :: 0 <= i < |entries| ==>
              entries[i].sampleSize in GridSizeMap(entries)
              && GridSizeMap(entries)[entries[i].sampleSize] == GridSizeOf(entries[i])
  {
    GridSizeMapLastEntryWins(entries);
    assert forall i :: 0 <= i < |entries| ==> LastWithSampleSize(entries, i);
  }

  /** Every grid of the manager has at least one tile. */
  predicate GridsNonEmpty(grids: seq<TileGridEntry>) {
    forall i :: 0 <= i < |grids| ==> |grids[i].tileCoordinates| > 0
  }

  // ---------------------------------------------------------------------------
  // The invariant of a settled engine

  /** The rules the engine keeps between events:
      `ready` is exactly "image info, tile manager and tile decoder all present";
      a manager only exists with a decoder and image info, and its id is below the
      next id handed out; the image info is the decoder's while there is one; a pending
      decoder job means no decoder and no manager; without a manager the published
      state is cleared, and with one the grid size map is the manager's. */
  ghost predicate Inv(e: Engine) {
    (e.ready <==> e.imageInfo.Some? && e.tileManager.Some? && e.tileDecoder.Some?)
    && (e.tileManager.Some? ==> e.tileDecoder.Some? && e.imageInfo.Some?)
    && (e.tileManager.Some? ==> e.tileManager.value.id < e.nextManagerId)
    && (e.tileManager.Some? ==> GridsNonEmpty(e.tileManager.value.sortedTileGridMap)
                                && e.tileGridSizeMap == GridSizeMap(e.tileManager.value.sortedTileGridMap))
    && (e.tileDecoder.Some? ==> e.imageInfo == Some(TileDecoders.ImageInfoOf(e.tileDecoder.value)))
    && (e.resetTileDecoderJob.Some? ==> e.tileDecoder.None? && e.tileManager.None?)
    && (e.tileManager.None? ==> PublishedCleared(e))
  }

  // ---------------------------------------------------------------------------
  // Operations

  /** `refreshReadyState()`: `ready` becomes "image info, tile manager and tile decoder
      all present"; nothing else changes. */
  function RefreshReadyState(e: Engine): (r: Engine)
    ensures r.ready <==> e.imageInfo.Some? && e.tileManager.Some? && e.tileDecoder.Some?
    ensures r.(ready := e.ready) == e
  {
    e.(ready := e.imageInfo.Some? && e.tileManager.Some? && e.tileDecoder.Some?)
  }

  /** `cleanTileManager()`: an existing manager is cleaned and dropped, the published
      tile state is cleared and `ready` refreshed; without a manager nothing happens. */
  function CleanTileManager(e: Engine): (r: Engine)
    ensures r.tileManager.None?
    ensures e.tileManager.Some? ==> PublishedCleared(r) && !r.ready
                                    && r.cleanedManagers == e.cleanedManagers + [e.tileManager.value]
    ensures e.tileManager.None? ==> r == e
    ensures r.tileDecoder == e.tileDecoder && r.imageInfo == e.imageInfo
  {
    if e.tileManager.Some? then
      RefreshReadyState(e.(tileManager := None,
                           cleanedManagers := e.cleanedManagers + [e.tileManager.value],
                           tileGridSizeMap := map[], foregroundTiles := [], backgroundTiles := [],
                           sampleSize := 0, imageLoadRect := ZeroRect))
    else e
  }

  /** `cleanTileDecoder()`: cancels a pending decoder job, closes and drops the decoder
      (refreshing `ready` while the image info is still set), then clears the image
      info in every case. */
  function CleanTileDecoder(e: Engine): (r: Engine)
    ensures r.tileDecoder.None? && r.imageInfo.None? && r.resetTileDecoderJob.None?
    ensures e.tileDecoder.Some? ==> !r.ready && r.closingDecoders == e.closingDecoders + [e.tileDecoder.value]
    ensures e.tileDecoder.None? ==> r.ready == e.ready && r.closingDecoders == e.closingDecoders
    ensures r.tileManager == e.tileManager && PublishedCleared(r) == PublishedCleared(e)
  {
    var cancelled := e.(resetTileDecoderJob := None);
    var closed :=
      if cancelled.tileDecoder.Some? then
        RefreshReadyState(cancelled.(closingDecoders := cancelled.closingDecoders + [cancelled.tileDecoder.value],
                                     tileDecoder := None))
      else cancelled;
    closed.(imageInfo := None)
  }

  /** `clean()`: the decoder first, then the manager. */
  function Clean(e: Engine): (r: Engine)
    ensures r.tileDecoder.None? && r.tileManager.None? && r.imageInfo.None? && r.resetTileDecoderJob.None?
    ensures Inv(e) ==> PublishedCleared(r) && !r.ready
  {
    CleanTileManager(CleanTileDecoder(e))
  }

  /** `resetTileDecoder()`: cleans the manager and the decoder; with a factory and a
      non-empty content size it launches the decoder creation job, which needs the
      coroutine scope of an attached view. */
  function ResetTileDecoder(e: Engine): (r: Engine)
    ensures r.tileDecoder.None? && r.tileManager.None? && r.imageInfo.None?
    ensures r.resetTileDecoderJob.Some? <==>
              e.attached && e.imageSourceFactory.Some? && !IntSizes.IsEmpty(e.contentSize)
    ensures r.resetTileDecoderJob.Some? ==>
              r.resetTileDecoderJob.value == DecoderJob(e.imageSourceFactory.value, e.contentSize)
  {
    var c := CleanTileDecoder(CleanTileManager(e));
    if c.imageSourceFactory.None? || IntSizes.IsEmpty(c.contentSize) || !c.attached then c
    else c.(resetTileDecoderJob := Some(DecoderJob(c.imageSourceFactory.value, c.contentSize)))
  }

  /** `resetTileManager()`: cleans the manager; with a decoder, image info and non-empty
      preferred tile size and content size, installs a new manager (a fresh identity,
      its tile grids given by `grids`), publishes its grid size map and refreshes
      `ready`. */
  function ResetTileManager(e: Engine, grids: seq<TileGridEntry>): (r: Engine)
    requires GridsNonEmpty(grids)
    ensures r.tileManager.Some? <==>
              e.tileDecoder.Some? && e.imageInfo.Some?
              && !IntSizes.IsEmpty(e.preferredTileSize) && !IntSizes.IsEmpty(e.contentSize)
    ensures r.tileManager.Some? ==>
              r.tileManager.value == TileManager(e.nextManagerId, grids)
              && r.tileGridSizeMap == GridSizeMap(grids) && r.ready
    ensures r.tileDecoder == e.tileDecoder && r.imageInfo == e.imageInfo
  {
    var c := CleanTileManager(e);
    if c.tileDecoder.None? || c.imageInfo.None? || IntSizes.IsEmpty(c.preferredTileSize)
       || IntSizes.IsEmpty(c.contentSize) then c
    else
      var manager := TileManager(c.nextManagerId, grids);
      RefreshReadyState(c.(tileGridSizeMap := GridSizeMap(grids), tileManager := Some(manager),
                           nextManagerId := c.nextManagerId + 1))
  }

  /** The decoder creation job completes. A cancelled job (none pending) has no effect.
      On success the decoder and its image info are installed and the manager is
      reset; on failure the exception's image info is published. */
  function DecoderCreated(e: Engine, outcome: DecoderCreation, grids: seq<TileGridEntry>): (r: Engine)
    requires GridsNonEmpty(grids)
    ensures e.resetTileDecoderJob.None? ==> r == e
    ensures e.resetTileDecoderJob.Some? ==> r.resetTileDecoderJob.None?
    ensures e.resetTileDecoderJob.Some? && outcome.Created? ==>
              r.tileDecoder == Some(outcome.decoder)
              && r.imageInfo == Some(TileDecoders.ImageInfoOf(outcome.decoder))
    ensures e.resetTileDecoderJob.Some? && outcome.Created? ==>
              (r.tileManager.Some? <==>
                 !IntSizes.IsEmpty(e.preferredTileSize) && !IntSizes.IsEmpty(e.contentSize))
    ensures e.resetTileDecoderJob.Some? && outcome.Created? && r.tileManager.Some? ==>
              r.tileManager.value == TileManager(e.nextManagerId, grids) && r.tileGridSizeMap == GridSizeMap(grids)
    ensures Inv(e) && e.resetTileDecoderJob.Some? && outcome.Created? ==> (r.ready <==> r.tileManager.Some?)
    ensures e.resetTileDecoderJob.Some? && outcome.CreateFailed? ==>
              r.tileDecoder == e.tileDecoder && r.imageInfo == outcome.imageInfo && r.ready == e.ready
  {
    if e.resetTileDecoderJob.None? then e
    else match outcome
      case CreateFailed(info) => e.(resetTileDecoderJob := None, imageInfo := info)
      case Created(decoder) =>
        ResetTileManager(e.(resetTileDecoderJob := None, tileDecoder := Some(decoder),
                            imageInfo := Some(TileDecoders.ImageInfoOf(decoder))), grids)
  }

  /** `setImageSource(factory)`: the same factory is refused with `false`; another one
      cleans the engine, is stored with its key as `imageKey`, and, when the view is
      attached, starts a decoder reset. */
  function SetImageSource(e: Engine, factory: Option<ImageSourceFactory>): (r: (Engine, bool))
    ensures e.imageSourceFactory == factory ==> r == (e, false)
    ensures e.imageSourceFactory != factory ==>
              r.1 && r.0.imageSourceFactory == factory
              && r.0.imageKey == (if factory.Some? then Some(factory.value.key) else None)
              && r.0.tileDecoder.None? && r.0.tileManager.None? && r.0.imageInfo.None?
    ensures e.imageSourceFactory != factory ==>
              (r.0.resetTileDecoderJob.Some? <==>
                 e.attached && factory.Some? && !IntSizes.IsEmpty(e.contentSize))
  {
    if e.imageSourceFactory == factory then (e, false)
    else
      var c := Clean(e);
      var stored := c.(imageSourceFactory := factory,
                       imageKey := if factory.Some? then Some(factory.value.key) else None);
      (if stored.attached then ResetTileDecoder(stored) else stored, true)
  }

  /** `refreshTiles(...)`: without a manager, or while stopped, nothing happens;
      otherwise the request goes to the current manager, whose id is returned with it. */
  function RefreshTiles(e: Engine, request: RefreshRequest): (forwarded: Option<(nat, RefreshRequest)>)
    ensures forwarded.None? <==> e.tileManager.None? || e.stopped
    ensures forwarded.Some? ==> forwarded.value == (e.tileManager.value.id, request)
  {
    if e.tileManager.None? then None
    else if e.stopped then None
    else Some((e.tileManager.value.id, request))
  }

  /** Whether `managerId` is the current manager, the check every callback makes. */
  predicate IsCurrentManager(e: Engine, managerId: nat) {
    e.tileManager.Some? && e.tileManager.value.id == managerId
  }

  /** `onTileChanged(manager)`: publishes the manager's tile lists, if it is current. */
  function OnTileChanged(e: Engine, managerId: nat, foreground: seq<TileSnapshot>,
                         background: seq<TileSnapshot>): (r: Engine)
    ensures IsCurrentManager(e, managerId) ==>
              r == e.(foregroundTiles := foreground, backgroundTiles := background)
    ensures !IsCurrentManager(e, managerId) ==> r == e
  {
    if IsCurrentManager(e, managerId) then e.(backgroundTiles := background, foregroundTiles := foreground)
    else e
  }

  /** `onSampleSizeChanged(manager)`. */
  function OnSampleSizeChanged(e: Engine, managerId: nat, sampleSize: int): (r: Engine)
    ensures IsCurrentManager(e, managerId) ==> r == e.(sampleSize := sampleSize)
    ensures !IsCurrentManager(e, managerId) ==> r == e
  {
    if IsCurrentManager(e, managerId) then e.(sampleSize := sampleSize) else e
  }

  /** `onImageLoadRectChanged(manager)`. */
  function OnImageLoadRectChanged(e: Engine, managerId: nat, imageLoadRect: Rect): (r: Engine)
    ensures IsCurrentManager(e, managerId) ==> r == e.(imageLoadRect := imageLoadRect)
    ensures !IsCurrentManager(e, managerId) ==> r == e
  {
    if IsCurrentManager(e, managerId) then e.(imageLoadRect := imageLoadRect) else e
  }

  /** A new content size: the state flow emits only a changed value, and its collector,
      running while attached, resets the decoder. The source writes the state only
      from the attached scope; the detached case, which just stores the size, is the
      model's own. */
  function ContentSizeChanged(e: Engine, contentSize: IntSize): (r: Engine)
    ensures r.contentSize == contentSize
    ensures contentSize == e.contentSize ==> r == e
    ensures contentSize != e.contentSize && e.attached ==>
              r.tileDecoder.None? && r.tileManager.None? && r.imageInfo.None?
              && (r.resetTileDecoderJob.Some? <==> e.imageSourceFactory.Some? && !IntSizes.IsEmpty(contentSize))
    ensures contentSize != e.contentSize && !e.attached ==> r == e.(contentSize := contentSize)
  {
    if contentSize == e.contentSize then e
    else
      var c := e.(contentSize := contentSize);
      if c.attached then ResetTileDecoder(c) else c
  }

  /** A new preferred tile size: its collector, running while attached, resets the
      manager. As for the content size, the detached case is the model's own. */
  function PreferredTileSizeChanged(e: Engine, preferredTileSize: IntSize, grids: seq<TileGridEntry>): (r: Engine)
    requires GridsNonEmpty(grids)
    ensures r.preferredTileSize == preferredTileSize
    ensures preferredTileSize == e.preferredTileSize ==> r == e
    ensures preferredTileSize != e.preferredTileSize && e.attached ==>
              (r.tileManager.Some? <==>
                 e.tileDecoder.Some? && e.imageInfo.Some?
                 && !IntSizes.IsEmpty(preferredTileSize) && !IntSizes.IsEmpty(e.contentSize))
              && r.tileDecoder == e.tileDecoder && r.imageInfo == e.imageInfo
    ensures preferredTileSize != e.preferredTileSize && e.attached && r.tileManager.Some? ==>
              r.tileManager.value == TileManager(e.nextManagerId, grids) && r.ready
    ensures preferredTileSize != e.preferredTileSize && !e.attached ==> r == e.(preferredTileSize := preferredTileSize)
  {
    if preferredTileSize == e.preferredTileSize then e
    else
      var c := e.(preferredTileSize := preferredTileSize);
      if c.attached then ResetTileManager(c, grids) else c
  }

  /** The lifecycle observer sets `stopped`; the manager's own clean on stop is
      internal to the opaque manager. */
  function SetStopped(e: Engine, stopped: bool): (r: Engine)
    ensures r.stopped == stopped && r.(stopped := e.stopped) == e
  {
    e.(stopped := stopped)
  }

  // ---------------------------------------------------------------------------
  // Properties

  /** The operations that touch one field keep the invariant: the ready refresh, the
      stopped flag, and callbacks (which change the published state only for the
      current manager). */
  lemma SimpleOperationsPreserveInv(e: Engine, stopped: bool, managerId: nat,
      foreground: seq<TileSnapshot>, background: seq<TileSnapshot>, sampleSize: int, imageLoadRect: Rect)
    requires Inv(e)
    ensures Inv(RefreshReadyState(e))
    ensures Inv(SetStopped(e, stopped))
    ensures Inv(OnTileChanged(e, managerId, foreground, background))
    ensures Inv(OnSampleSizeChanged(e, managerId, sampleSize))
    ensures Inv(OnImageLoadRectChanged(e, managerId, imageLoadRect))
  {
  }

  /** A changed content size or preferred tile size keeps the invariant. */
  lemma SizeChangesPreserveInv(e: Engine, size: IntSize, grids: seq<TileGridEntry>)
    requires Inv(e) && GridsNonEmpty(grids)
    ensures Inv(ContentSizeChanged(e, size))
    ensures Inv(PreferredTileSizeChanged(e, size, grids))
  {
    ResetTileDecoderPreservesInv(e.(contentSize := size));
    ResetTileManagerPreservesInv(e.(preferredTileSize := size), grids);
  }

  /** Cleaning the manager, then the decoder (as `resetTileDecoder` does), or both (as
      `clean` does) keeps the invariant. */
  lemma CleanPreservesInv(e: Engine)
    requires Inv(e)
    ensures Inv(CleanTileManager(e)) && Inv(CleanTileDecoder(CleanTileManager(e)))
    ensures Inv(Clean(e))
  {
  }

  /** Launching a decoder reset keeps the invariant. */
  lemma ResetTileDecoderPreservesInv(e: Engine)
    requires Inv(e)
    ensures Inv(ResetTileDecoder(e))
  {
    CleanPreservesInv(e);
  }

  /** Installing a new manager, or failing to, keeps the invariant. */
  lemma ResetTileManagerPreservesInv(e: Engine, grids: seq<TileGridEntry>)
    requires Inv(e) && GridsNonEmpty(grids)
    ensures Inv(ResetTileManager(e, grids))
  {
  }

  /** The end of the decoder creation job, successful, failed or cancelled, keeps the
      invariant. */
  lemma DecoderCreatedPreservesInv(e: Engine, outcome: DecoderCreation, grids: seq<TileGridEntry>)
    requires Inv(e) && GridsNonEmpty(grids)
    ensures Inv(DecoderCreated(e, outcome, grids))
  {
    if e.resetTileDecoderJob.Some? && outcome.Created? {
      var d := outcome.decoder;
      ResetTileManagerPreservesInv(
        e.(resetTileDecoderJob := None, tileDecoder := Some(d), imageInfo := Some(TileDecoders.ImageInfoOf(d))),
        grids);
    }
  }

  /** Setting an image source keeps the invariant. */
  lemma SetImageSourcePreservesInv(e: Engine, factory: Option<ImageSourceFactory>)
    requires Inv(e)
    ensures Inv(SetImageSource(e, factory).0)
  {
    if e.imageSourceFactory != factory {
      CleanPreservesInv(e);
      var c := Clean(e);
      var stored := c.(imageSourceFactory := factory,
                       imageKey := if factory.Some? then Some(factory.value.key) else None);
      ResetTileDecoderPreservesInv(stored);
    }
  }

  /** Once a manager has been replaced or dropped, its callbacks can no longer change
      what the engine publishes: the next manager gets a new identity. */
  lemma {:induction false} StaleManagerCannotPublish(e: Engine, grids: seq<TileGridEntry>,
      foreground: seq<TileSnapshot>, background: seq<TileSnapshot>, sampleSize: int, imageLoadRect: Rect)
    requires Inv(e) && e.tileManager.Some? && GridsNonEmpty(grids)
    ensures var stale := e.tileManager.value.id;
      var r := ResetTileManager(e, grids);
      OnTileChanged(r, stale, foreground, background) == r
      && OnSampleSizeChanged(r, stale, sampleSize) == r
      && OnImageLoadRectChanged(r, stale, imageLoadRect) == r
    ensures var stale := e.tileManager.value.id;
      var c := Clean(e);
      OnTileChanged(c, stale, foreground, background) == c
      && OnSampleSizeChanged(c, stale, sampleSize) == c
      && OnImageLoadRectChanged(c, stale, imageLoadRect) == c
  {
    var stale := e.tileManager.value.id;
    var r := ResetTileManager(e, grids);
    assert r.tileManager.Some? ==> r.tileManager.value.id == e.nextManagerId;
    assert !IsCurrentManager(r, stale);
  }

  /** Setting the factory the engine already has changes nothing; setting a new one
      and then the old one again is accepted both times. */
  lemma SetImageSourceSameFactoryIsNoOp(e: Engine, factory: Option<ImageSourceFactory>)
    ensures SetImageSource(e, e.imageSourceFactory) == (e, false)
    ensures factory != e.imageSourceFactory ==>
              var (e1, changed1) := SetImageSource(e, factory);
              var (e2, changed2) := SetImageSource(e1, e.imageSourceFactory);
              changed1 && changed2 && e2.imageSourceFactory == e.imageSourceFactory
  {
  }
}
