/** Asset resolution for both renderers (`loadAssets` in src/index.ts and
    dist/index.js). The image decoder and its cache are replaced by a store:
    a map from asset path to the decoded image that path yields. A path
    missing from the store is one whose load rejects. */
module Assets {
  import opened Wrappers
  import opened Layout
  import opened Config

  /** A decoded image, or a circle drawn on an off-screen canvas. */
  datatype Image =
    | Bitmap(path: string, width: nat, height: nat)
    | Circle(color: string, diameter: real)

  type Store = map<string, Image>

  /** Logical asset keys of the static renderer's request table. */
  datatype AssetKey = HighKey | GrayKey | PurpleKey | AllyKey | EnemyKey | LogoKey

  /** The file name (without extension) each key is loaded from. */
  function FileName(k: AssetKey): string {
    match k
    case HighKey => "areaUnitHigh"
    case GrayKey => "grayCell"
    case PurpleKey => "purpleCell"
    case AllyKey => "areaUnitAlly"
    case EnemyKey => "areaUnitEnemy"
    case LogoKey => "E-bou"
  }

  /** `${assetPath}/${name}.png` */
  function AssetPath(base: string, k: AssetKey): string {
    base + "/" + FileName(k) + ".png"
  }

  /** The resolved assets one frame is composed from. The three base tiles
      are always present; the others are optional. */
  datatype AssetSet = AssetSet(
    high: Image,
    gray: Image,
    purple: Image,
    ally: Option<Image>,
    enemy: Option<Image>,
    pnj: Option<Image>,
    logo: Option<Image>
  )

  /** The keys the static renderer requests, in request order: the three base
      tiles, the faction markers only with `displayStartCells`, the logo only
      with `addWatermark`. */
  function RequestedKeys(opts: Options): (keys: seq<AssetKey>)
    ensures |keys| >= 3 && keys[..3] == [HighKey, GrayKey, PurpleKey]
    ensures AllyKey in keys <==> opts.displayStartCells
    ensures EnemyKey in keys <==> opts.displayStartCells
    ensures LogoKey in keys <==> opts.addWatermark
    ensures forall i, j :: 0 <= i < j < |keys| ==> keys[i] != keys[j]
  {
    [HighKey, GrayKey, PurpleKey]
    + (if opts.displayStartCells then [AllyKey, EnemyKey] else [])
    + (if opts.addWatermark then [LogoKey] else [])
  }

  /** `keys[i]` is the first key whose path the store cannot resolve. */
  predicate FirstMissing(base: string, keys: seq<AssetKey>, store: Store, i: int) {
    && 0 <= i < |keys|
    && AssetPath(base, keys[i]) !in store
    && forall j :: 0 <= j < i ==> AssetPath(base, keys[j]) in store
  }

  /** Loads the given keys one after the other, stopping at the first path
      the store cannot resolve; that path is the error. */
  function LoadKeys(base: string, keys: seq<AssetKey>, store: Store): (r: Result<map<AssetKey, Image>, string>)
    ensures r.Success? <==> forall i :: 0 <= i < |keys| ==> AssetPath(base, keys[i]) in store
    ensures r.Success? ==> forall i :: 0 <= i < |keys| ==> keys[i] in r.value
    ensures r.Success? ==> forall k :: k in r.value ==> k in keys && r.value[k] == store[AssetPath(base, k)]
    ensures r.Failure? ==>
      exists i :: FirstMissing(base, keys, store, i) && r.error == AssetPath(base, keys[i])
  {
    if |keys| == 0 then
      Success(map[])
    else
      var path := AssetPath(base, keys[0]);
      if path !in store then
        Failure(path)
      else
        var rest :- LoadKeys(base, keys[1..], store);
        Success(rest[keys[0] := store[path]])
  }

  /** Every key the static renderer requests resolves in the store. */
  predicate StaticResolvable(opts: Options, store: Store) {
    forall k :: k in RequestedKeys(opts) ==> AssetPath(opts.assetPath, k) in store
  }

  /** `a` holds exactly the static renderer's requested assets, as the store
      resolves them. */
  predicate StaticAssetsFrom(a: AssetSet, opts: Options, store: Store) {
    var base := opts.assetPath;
    && Resolves(store, base, HighKey, a.high)
    && Resolves(store, base, GrayKey, a.gray)
    && Resolves(store, base, PurpleKey, a.purple)
    && (a.ally.Some? <==> opts.displayStartCells)
    && (a.ally.Some? ==> Resolves(store, base, AllyKey, a.ally.value))
    && (a.enemy.Some? <==> opts.displayStartCells)
    && (a.enemy.Some? ==> Resolves(store, base, EnemyKey, a.enemy.value))
    && a.pnj.None?
    && (a.logo.Some? <==> opts.addWatermark)
    && (a.logo.Some? ==> Resolves(store, base, LogoKey, a.logo.value))
  }

  /** The store resolves key `k` under `base` to `img`. */
  predicate Resolves(store: Store, base: string, k: AssetKey, img: Image) {
    AssetPath(base, k) in store && store[AssetPath(base, k)] == img
  }

  /** The static renderer's `loadAssets`: every requested key must load. */
  function LoadStatic(opts: Options, store: Store): (r: Result<AssetSet, string>)
    ensures r.Success? <==> StaticResolvable(opts, store)
    ensures r.Failure? ==> r.error !in store
    ensures r.Failure? ==> exists i ::
      FirstMissing(opts.assetPath, RequestedKeys(opts), store, i) && r.error == AssetPath(opts.assetPath, RequestedKeys(opts)[i])
    ensures r.Success? ==> StaticAssetsFrom(r.value, opts, store)
  {
    var keys := RequestedKeys(opts);
    var m :- LoadKeys(opts.assetPath, keys, store);
    assert keys[0] == HighKey && keys[1] == GrayKey && keys[2] == PurpleKey;
    Success(AssetSet(
      m[HighKey], m[GrayKey], m[PurpleKey],
      if AllyKey in m then Some(m[AllyKey]) else None,
      if EnemyKey in m then Some(m[EnemyKey]) else None,
      None,
      if LogoKey in m then Some(m[LogoKey]) else None))
  }

  /** The keys the interactive renderer loads from the store: the base tiles,
      then the logo when `addWatermark` is on. */
  function InteractiveKeys(opts: InteractiveOptions): seq<AssetKey> {
    [HighKey, GrayKey, PurpleKey] + (if opts.base.addWatermark then [LogoKey] else [])
  }

  /** The interactive renderer's `loadAssets`: the three base tiles and, with
      `addWatermark`, the logo come from the store; the faction and NPC
      markers are circles as wide as a cell, made only when their option is
      on. */
  function LoadInteractive(opts: InteractiveOptions, store: Store): (r: Result<AssetSet, string>)
    ensures r.Success? <==>
      && AssetPath(opts.base.assetPath, HighKey) in store
      && AssetPath(opts.base.assetPath, GrayKey) in store
      && AssetPath(opts.base.assetPath, PurpleKey) in store
      && (opts.base.addWatermark ==> AssetPath(opts.base.assetPath, LogoKey) in store)
    ensures r.Failure? ==> r.error !in store
    ensures r.Failure? ==> exists i ::
      && FirstMissing(opts.base.assetPath, InteractiveKeys(opts), store, i)
      && r.error == AssetPath(opts.base.assetPath, InteractiveKeys(opts)[i])
      && InteractiveKeys(opts)[i] in {HighKey, GrayKey, PurpleKey, LogoKey}
      && (InteractiveKeys(opts)[i] == LogoKey ==> opts.base.addWatermark)
    ensures r.Success? ==> var a := r.value;
      && a.high == store[AssetPath(opts.base.assetPath, HighKey)]
      && a.gray == store[AssetPath(opts.base.assetPath, GrayKey)]
      && a.purple == store[AssetPath(opts.base.assetPath, PurpleKey)]
      && a.ally == (if opts.base.displayStartCells then Some(Circle("green", CELL_WIDTH)) else None)
      && a.enemy == (if opts.base.displayStartCells then Some(Circle("red", CELL_WIDTH)) else None)
      && a.pnj == (if opts.displayPnj then Some(Circle("purple", CELL_WIDTH)) else None)
      && (a.logo.Some? <==> opts.base.addWatermark)
      && (a.logo.Some? ==> a.logo.value == store[AssetPath(opts.base.assetPath, LogoKey)])
  {
    var base := opts.base;
    var keys := InteractiveKeys(opts);
    assert keys[0] == HighKey && keys[1] == GrayKey && keys[2] == PurpleKey;
    assert base.addWatermark ==> keys[3] == LogoKey;
    assert forall i :: 0 <= i < |keys| ==> keys[i] in {HighKey, GrayKey, PurpleKey, LogoKey};
    var loaded := LoadKeys(base.assetPath, keys, store);
    if loaded.Failure? then
      Failure(loaded.error)
    else
      var m := loaded.value;
      Success(AssetSet(
        m[HighKey], m[GrayKey], m[PurpleKey],
        if base.displayStartCells then Some(Circle("green", CELL_WIDTH)) else None,
        if base.displayStartCells then Some(Circle("red", CELL_WIDTH)) else None,
        if opts.displayPnj then Some(Circle("purple", CELL_WIDTH)) else None,
        if base.addWatermark then Some(m[LogoKey]) else None))
  }
}
