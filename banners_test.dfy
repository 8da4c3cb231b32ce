/**
 * The behaviour the `Banners` test suite pins down, stated over the model:
 * first in general form, then for the suite's own two-banner catalog.
 */
module BannersTest {
  import opened Options
  import opened Decimal
  import opened Banners

  /** The suite's catalog: `flag1` embargoed for 1 day on dismissal, `flag2` for 2. */
  const Catalog: seq<Banner> := [
    Banner("flag1", "title1", "copy1", "cta1", "link1", Some(1)),
    Banner("flag2", "title2", "copy2", "cta2", "link2", Some(2))
  ]

  /** No two catalog entries share an id. */
  predicate UniqueIds(catalog: seq<Banner>) {
    forall i, j :: 0 <= i < j < |catalog| ==> catalog[i].id != catalog[j].id
  }

  /** With no waffle flag set nothing is rendered, whatever the catalog and storage. */
  lemma NoFlagsRendersNothing(catalog: seq<Banner>, storage: map<string, string>, now: int)
    ensures Select(catalog, {}, storage, now) == None
  {
  }

  /**
   * With only one banner's flag set and that banner not embargoed, that very
   * banner (its own title, copy, cta and url) is rendered.
   */
  lemma SingleFlagRendersItsBanner(catalog: seq<Banner>, i: int, storage: map<string, string>, now: int)
    requires UniqueIds(catalog) && 0 <= i < |catalog|
    requires !Embargoed(storage, catalog[i].id, now)
    ensures Select(catalog, {catalog[i].id}, storage, now) == Some(catalog[i])
  {
    assert FirstShowable(catalog, i, {catalog[i].id}, storage, now);
  }

  /** Of two showable banners, the later one in the catalog is never the one rendered. */
  lemma EarlierBannerWins(catalog: seq<Banner>, i: int, j: int, flags: set<string>, storage: map<string, string>, now: int)
    requires UniqueIds(catalog) && 0 <= i < j < |catalog|
    requires Showable(catalog[i], flags, storage, now)
    ensures Select(catalog, flags, storage, now) != Some(catalog[j])
  {
    FirstShowableExists(catalog, i, flags, storage, now);
    var k :| FirstShowable(catalog, k, flags, storage, now);
    assert k <= i;
  }

  /** When every banner whose flag is set is embargoed, nothing is rendered. */
  lemma AllEmbargoedRendersNothing(catalog: seq<Banner>, flags: set<string>, storage: map<string, string>, now: int)
    requires forall b :: b in catalog && b.id in flags ==> Embargoed(storage, b.id, now)
    ensures Select(catalog, flags, storage, now) == None
  {
  }

  // ---------------------------------------------------------------------------
  // The suite's scenarios on its own catalog

  const BothFlags: set<string> := {"flag1", "flag2"}

  lemma SuiteKeysDiffer()
    ensures Key("flag1") != Key("flag2")
  {
    if Key("flag1") == Key("flag2") { KeyInjective("flag1", "flag2"); }
  }

  /** With only `flag1` set, or only `flag2`, that banner alone is rendered. */
  lemma SuiteSingleFlags(now: int)
    ensures Select(Catalog, {"flag1"}, map[], now) == Some(Catalog[0])
    ensures Select(Catalog, {"flag2"}, map[], now) == Some(Catalog[1])
  {
    SingleFlagRendersItsBanner(Catalog, 0, map[], now);
    SingleFlagRendersItsBanner(Catalog, 1, map[], now);
  }

  /** An empty storage and both flags set: the first banner, not the second. */
  lemma BothFlagsRenderFirst(now: int)
    ensures Select(Catalog, BothFlags, map[], now) == Some(Catalog[0])
  {
    assert FirstShowable(Catalog, 0, BothFlags, map[], now);
  }

  /** `flag1` embargoed until `now + 10000`: the second banner is rendered instead. */
  lemma FirstEmbargoedRendersSecond(now: int)
    ensures Select(Catalog, BothFlags, map[Key("flag1") := Format(now + 10000)], now) == Some(Catalog[1])
  {
    var s := map[Key("flag1") := Format(now + 10000)];
    FormatRoundTrip(now + 10000);
    SuiteKeysDiffer();
    assert !Showable(Catalog[0], BothFlags, s, now);
    assert FirstShowable(Catalog, 1, BothFlags, s, now);
  }

  /** Both banners embargoed until `now + 10000`: nothing is rendered. */
  lemma BothEmbargoedRendersNothing(now: int)
    ensures Select(Catalog, BothFlags, map[Key("flag1") := Format(now + 10000), Key("flag2") := Format(now + 10000)], now) == None
  {
    var s := map[Key("flag1") := Format(now + 10000), Key("flag2") := Format(now + 10000)];
    FormatRoundTrip(now + 10000);
    SuiteKeysDiffer();
    assert Embargoed(s, "flag1", now) && Embargoed(s, "flag2", now);
  }

  /**
   * `flag1` until `now + 10000` and `flag2` until `now - 1` renders the second
   * banner; moving `flag1`'s end to `now - 1` renders the first again.
   */
  lemma EmbargoesExpire(now: int)
    ensures Select(Catalog, BothFlags, map[Key("flag1") := Format(now + 10000), Key("flag2") := Format(now - 1)], now) == Some(Catalog[1])
    ensures Select(Catalog, BothFlags, map[Key("flag1") := Format(now - 1), Key("flag2") := Format(now - 1)], now) == Some(Catalog[0])
  {
    var s1 := map[Key("flag1") := Format(now + 10000), Key("flag2") := Format(now - 1)];
    var s2 := s1[Key("flag1") := Format(now - 1)];
    FormatRoundTrip(now + 10000);
    FormatRoundTrip(now - 1);
    SuiteKeysDiffer();
    assert FirstShowable(Catalog, 1, BothFlags, s1, now);
    assert s2 == map[Key("flag1") := Format(now - 1), Key("flag2") := Format(now - 1)];
    assert FirstShowable(Catalog, 0, BothFlags, s2, now);
  }

  /** Dismissing the first banner at `now`: a fresh mount at `now` renders the second. */
  lemma DismissFirstRendersSecond(now: int)
    ensures Select(Catalog, BothFlags, Dismissed(map[], Catalog[0], now), now) == Some(Catalog[1])
  {
    SelectAfterDismiss(Catalog, BothFlags, map[], Catalog[0], now, now);
    assert WithoutId(Catalog, "flag1") == [Catalog[1]];
    assert FirstShowable([Catalog[1]], 0, BothFlags, map[], now);
  }

  /** Dismissing the second banner as well: a fresh mount at `now` renders nothing. */
  lemma DismissBothRendersNothing(now: int)
    ensures Select(Catalog, BothFlags, Dismissed(Dismissed(map[], Catalog[0], now), Catalog[1], now), now) == None
  {
    var s1 := Dismissed(map[], Catalog[0], now);
    SelectAfterDismiss(Catalog, BothFlags, s1, Catalog[1], now, now);
    assert WithoutId(Catalog, "flag2") == [Catalog[0]];
    SelectAfterDismiss([Catalog[0]], BothFlags, map[], Catalog[0], now, now);
    assert WithoutId([Catalog[0]], "flag1") == [];
  }

  /**
   * The dismissal test: mount with both flags set, click dismiss, re-mount,
   * click dismiss again, re-mount. Returns what each step displays and the
   * embargo ends read back from storage.
   */
  method BannersCanBeDismissed(now: int)
    returns (mounted: Option<Banner>, afterFirst: Option<Banner>, firstEnd: Option<int>,
             remounted: Option<Banner>, afterSecond: Option<Banner>, secondEnd: Option<int>,
             last: Option<Banner>)
    ensures mounted == Some(Catalog[0]) && afterFirst == None
    ensures firstEnd == Some(now + 1 * 86400000)
    ensures remounted == Some(Catalog[1]) && afterSecond == None
    ensures secondEnd == Some(now + 2 * 86400000)
    ensures last == None
  {
    var storage := new LocalStorage();
    var banners := new Component(Catalog, BothFlags, storage, now);
    BothFlagsRenderFirst(now);
    mounted := banners.showing;

    banners.Dismiss(now);
    afterFirst := banners.showing;
    var stored := storage.GetItem(Key("flag1"));
    firstEnd := if stored.Some? then ParseTimestamp(stored.value) else None;
    DismissRecordsEmbargo(map[], Catalog[0], now);

    banners := new Component(Catalog, BothFlags, storage, now);
    DismissFirstRendersSecond(now);
    remounted := banners.showing;

    var s1 := storage.items;
    banners.Dismiss(now);
    afterSecond := banners.showing;
    stored := storage.GetItem(Key("flag2"));
    secondEnd := if stored.Some? then ParseTimestamp(stored.value) else None;
    DismissRecordsEmbargo(s1, Catalog[1], now);

    banners := new Component(Catalog, BothFlags, storage, now);
    DismissBothRendersNothing(now);
    last := banners.showing;
  }
}
