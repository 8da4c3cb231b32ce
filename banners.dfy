/**
 * The banner engine: which single banner, if any, the `Banners` component
 * shows for a catalog, the user's active waffle flags, the embargoes kept in
 * the browser's storage and the current time; and what dismissing the shown
 * banner writes to that storage.
 *
 * Timestamps are epoch milliseconds and `now` is a parameter everywhere.
 */
module Banners {
  import opened Options
  import opened Decimal

  /** One catalog entry; `embargoDays` is optional. */
  datatype Banner = Banner(
    id: string,
    title: string,
    copy: string,
    cta: string,
    url: string,
    embargoDays: Option<int>)

  /** Milliseconds in a day: 24 * 60 * 60 * 1000. */
  const DayMillis: int := 24 * 60 * 60 * 1000

  /** Days a banner stays hidden after dismissal, used when it names none (or zero). */
  const DefaultEmbargoDays: int := 5

  // ---------------------------------------------------------------------------
  // Storage keys

  const KeyPrefix: string := "banner."
  const KeySuffix: string := ".embargoed_until"

  /** The storage key under which a banner's embargo end is kept. */
  function Key(id: string): (k: string)
    ensures |k| == |id| + 23
    ensures k[..7] == "banner." && k[|k| - 16..] == ".embargoed_until"
    ensures k[7..|k| - 16] == id
  {
    KeyPrefix + id + KeySuffix
  }

  /** The banner id a storage key belongs to, if the key has the embargo format. */
  function IdOfKey(key: string): Option<string> {
    if |key| >= |KeyPrefix| + |KeySuffix|
       && key[..|KeyPrefix|] == KeyPrefix
       && key[|key| - |KeySuffix|..] == KeySuffix
    then Some(key[|KeyPrefix|..|key| - |KeySuffix|])
    else None
  }

  /** Reading the id back out of a key gives the id the key was made from. */
  lemma KeyRoundTrip(id: string)
    ensures IdOfKey(Key(id)) == Some(id)
  {
    var k := Key(id);
    assert k[..|KeyPrefix|] == KeyPrefix;
    assert k[|k| - |KeySuffix|..] == KeySuffix;
    assert k[|KeyPrefix|..|k| - |KeySuffix|] == id;
  }

  /** Every key that reads as an embargo key for `id` is exactly `Key(id)`. */
  lemma KeyOfId(key: string, id: string)
    requires IdOfKey(key) == Some(id)
    ensures key == Key(id)
  {
    var p, q := |KeyPrefix|, |key| - |KeySuffix|;
    assert key == key[..p] + key[p..q] + key[q..];
  }

  /** Distinct banners never share an embargo key. */
  lemma KeyInjective(a: string, b: string)
    requires Key(a) == Key(b)
    ensures a == b
  {
    KeyRoundTrip(a);
    KeyRoundTrip(b);
  }

  // ---------------------------------------------------------------------------
  // Selection

  /**
   * The embargo end stored for a banner id: None when the key is missing or
   * its value does not read as a timestamp.
   */
  function EmbargoedUntil(storage: map<string, string>, id: string): (r: Option<int>)
    ensures r.Some? <==> Key(id) in storage && IsTimestampText(storage[Key(id)])
    ensures forall t :: Key(id) in storage && storage[Key(id)] == Format(t) ==> r == Some(t)
  {
    forall t | Key(id) in storage && storage[Key(id)] == Format(t) ensures ParseTimestamp(Format(t)) == Some(t) {
      FormatRoundTrip(t);
    }
    if Key(id) in storage then ParseTimestamp(storage[Key(id)]) else None
  }

  /**
   * A banner is embargoed while its stored end lies strictly after `now`;
   * an end equal to `now` has expired.
   */
  predicate Embargoed(storage: map<string, string>, id: string, now: int)
    ensures !Embargoed(storage, id, now) <==> EmbargoedUntil(storage, id).None? || EmbargoedUntil(storage, id).value <= now
    ensures Key(id) !in storage ==> !Embargoed(storage, id, now)
  {
    match EmbargoedUntil(storage, id)
    case Some(until) => now < until
    case None => false
  }

  /** A banner may be shown when its flag is active and it is not embargoed. */
  predicate Showable(b: Banner, flags: set<string>, storage: map<string, string>, now: int) {
    b.id in flags && !Embargoed(storage, b.id, now)
  }

  /** Index `i` holds a showable banner and no earlier entry is showable. */
  predicate FirstShowable(catalog: seq<Banner>, i: int, flags: set<string>, storage: map<string, string>, now: int) {
    0 <= i < |catalog|
    && Showable(catalog[i], flags, storage, now)
    && forall j :: 0 <= j < i ==> !Showable(catalog[j], flags, storage, now)
  }

  /**
   * The banner the component shows: the first showable banner in catalog
   * order, or None. Nothing is shown exactly when no banner is showable, and
   * whenever some index is the first showable one, that entry is shown.
   */
  function Select(catalog: seq<Banner>, flags: set<string>, storage: map<string, string>, now: int): (r: Option<Banner>)
    ensures r.None? <==> forall i :: 0 <= i < |catalog| ==> !Showable(catalog[i], flags, storage, now)
    ensures r.Some? ==> r.value in catalog && Showable(r.value, flags, storage, now)
    ensures forall i :: FirstShowable(catalog, i, flags, storage, now) ==> r == Some(catalog[i])
    decreases |catalog|
  {
    if catalog == [] then None
    else if Showable(catalog[0], flags, storage, now) then Some(catalog[0])
    else
      var rest := Select(catalog[1..], flags, storage, now);
      assert forall i :: FirstShowable(catalog, i, flags, storage, now) ==> FirstShowable(catalog[1..], i - 1, flags, storage, now);
      rest
  }

  /** Whenever some banner is showable, a first showable one exists. */
  lemma {:induction false} FirstShowableExists(catalog: seq<Banner>, k: int, flags: set<string>, storage: map<string, string>, now: int)
    requires 0 <= k < |catalog| && Showable(catalog[k], flags, storage, now)
    ensures exists i :: FirstShowable(catalog, i, flags, storage, now)
    decreases k
  {
    if forall j :: 0 <= j < k ==> !Showable(catalog[j], flags, storage, now) {
      assert FirstShowable(catalog, k, flags, storage, now);
    } else {
      var j :| 0 <= j < k && Showable(catalog[j], flags, storage, now);
      FirstShowableExists(catalog, j, flags, storage, now);
    }
  }

  /**
   * What is shown depends on nothing but which entries are showable: two
   * states that agree on that agree on the selection.
   */
  lemma SelectDependsOnShowable(catalog: seq<Banner>, flags: set<string>, s1: map<string, string>, s2: map<string, string>, now: int)
    requires forall i :: 0 <= i < |catalog| ==> (Showable(catalog[i], flags, s1, now) <==> Showable(catalog[i], flags, s2, now))
    ensures Select(catalog, flags, s1, now) == Select(catalog, flags, s2, now)
  {
    var r1 := Select(catalog, flags, s1, now);
    if r1.Some? {
      var k :| 0 <= k < |catalog| && catalog[k] == r1.value;
      FirstShowableExists(catalog, k, flags, s1, now);
      var i :| FirstShowable(catalog, i, flags, s1, now);
      assert FirstShowable(catalog, i, flags, s2, now);
    }
  }

  /** An embargo whose end is not after `now` hides nothing: it acts as if the key were absent. */
  lemma ExpiredEmbargoIgnored(catalog: seq<Banner>, flags: set<string>, storage: map<string, string>, id: string, until: int, now: int)
    requires until <= now
    ensures Select(catalog, flags, storage[Key(id) := Format(until)], now) == Select(catalog, flags, storage - {Key(id)}, now)
  {
    var s1, s2 := storage[Key(id) := Format(until)], storage - {Key(id)};
    FormatRoundTrip(until);
    forall i | 0 <= i < |catalog|
      ensures Showable(catalog[i], flags, s1, now) <==> Showable(catalog[i], flags, s2, now)
    {
      if catalog[i].id != id {
        if Key(catalog[i].id) == Key(id) { KeyInjective(catalog[i].id, id); }
      }
    }
    SelectDependsOnShowable(catalog, flags, s1, s2, now);
  }

  /**
   * A stored value that does not read as a timestamp (empty or non-numeric
   * text) hides nothing: it acts as if the key were absent.
   */
  lemma MalformedEmbargoIgnored(catalog: seq<Banner>, flags: set<string>, storage: map<string, string>, id: string, value: string, now: int)
    requires ParseTimestamp(value) == None
    ensures Select(catalog, flags, storage[Key(id) := value], now) == Select(catalog, flags, storage - {Key(id)}, now)
  {
    var s1, s2 := storage[Key(id) := value], storage - {Key(id)};
    forall i | 0 <= i < |catalog|
      ensures Showable(catalog[i], flags, s1, now) <==> Showable(catalog[i], flags, s2, now)
    {
      if catalog[i].id != id {
        if Key(catalog[i].id) == Key(id) { KeyInjective(catalog[i].id, id); }
      }
    }
    SelectDependsOnShowable(catalog, flags, s1, s2, now);
  }

  // ---------------------------------------------------------------------------
  // Dismissal

  /** `embargoDays || 5`: a missing or zero count falls back to the default. */
  function EmbargoDays(b: Banner): (d: int)
    ensures d != 0
    ensures d == 5 || b.embargoDays == Some(d)
    ensures b.embargoDays.Some? && b.embargoDays.value != 0 ==> d == b.embargoDays.value
  {
    match b.embargoDays
    case Some(d) => if d != 0 then d else DefaultEmbargoDays
    case None => DefaultEmbargoDays
  }

  /** The end of the embargo a dismissal at `now` imposes. */
  function EmbargoEnd(b: Banner, now: int): (until: int)
    ensures until - now == EmbargoDays(b) * 86400000
    ensures EmbargoDays(b) > 0 ==> until >= now + 86400000
  {
    now + EmbargoDays(b) * DayMillis
  }

  /** The storage after dismissing `b` at `now`: its key is overwritten with the embargo end. */
  function Dismissed(storage: map<string, string>, b: Banner, now: int): (r: map<string, string>)
    ensures r.Keys == storage.Keys + {Key(b.id)}
    ensures ParseTimestamp(r[Key(b.id)]) == Some(EmbargoEnd(b, now))
    ensures forall k :: k in storage && k != Key(b.id) ==> r[k] == storage[k]
  {
    FormatRoundTrip(EmbargoEnd(b, now));
    storage[Key(b.id) := Format(EmbargoEnd(b, now))]
  }

  /** The catalog without the entries whose id is `id`, order kept. */
  function WithoutId(catalog: seq<Banner>, id: string): (r: seq<Banner>)
    ensures forall b :: b in r <==> b in catalog && b.id != id
    decreases |catalog|
  {
    if catalog == [] then []
    else if catalog[0].id == id then WithoutId(catalog[1..], id)
    else [catalog[0]] + WithoutId(catalog[1..], id)
  }

  /** Dropping an id from two catalog pieces in turn is dropping it from their concatenation: order is kept. */
  lemma {:induction false} WithoutIdAppend(a: seq<Banner>, b: seq<Banner>, id: string)
    ensures WithoutId(a + b, id) == WithoutId(a, id) + WithoutId(b, id)
    decreases |a|
  {
    if a != [] {
      assert (a + b)[1..] == a[1..] + b;
      WithoutIdAppend(a[1..], b, id);
    } else {
      assert a + b == b;
    }
  }

  /**
   * The value stored under the dismissed banner's key reads back as
   * `now + (embargoDays || 5) * 86400000`.
   */
  lemma DismissRecordsEmbargo(storage: map<string, string>, b: Banner, now: int)
    ensures EmbargoedUntil(Dismissed(storage, b, now), b.id)
         == Some(now + (if b.embargoDays.Some? && b.embargoDays.value != 0 then b.embargoDays.value else 5) * 86400000)
  {
    FormatRoundTrip(EmbargoEnd(b, now));
  }

  /** Dismissing one banner leaves the embargo of every other id as it was. */
  lemma DismissKeepsOthers(storage: map<string, string>, b: Banner, now: int, id: string)
    requires id != b.id
    ensures EmbargoedUntil(Dismissed(storage, b, now), id) == EmbargoedUntil(storage, id)
  {
    if Key(id) == Key(b.id) { KeyInjective(id, b.id); }
  }

  /**
   * Until its embargo ends, a dismissed banner is skipped: selecting from the
   * new storage at any time `at` before the end is selecting from the old
   * storage in a catalog without that banner. This needs a positive day count;
   * a negative one puts the end in the past.
   */
  lemma {:induction false} SelectAfterDismiss(catalog: seq<Banner>, flags: set<string>, storage: map<string, string>, b: Banner, now: int, at: int)
    requires at < EmbargoEnd(b, now)
    ensures Select(catalog, flags, Dismissed(storage, b, now), at) == Select(WithoutId(catalog, b.id), flags, storage, at)
    decreases |catalog|
  {
    if catalog != [] {
      var c := catalog[0];
      var s' := Dismissed(storage, b, now);
      FormatRoundTrip(EmbargoEnd(b, now));
      if c.id == b.id {
        assert !Showable(c, flags, s', at);
      } else {
        DismissKeepsOthers(storage, b, now, c.id);
        assert Showable(c, flags, s', at) <==> Showable(c, flags, storage, at);
      }
      SelectAfterDismiss(catalog[1..], flags, storage, b, now, at);
    }
  }

  /** After a dismissal, no banner with the dismissed id is selected before the embargo ends. */
  lemma DismissedNotReselected(catalog: seq<Banner>, flags: set<string>, storage: map<string, string>, b: Banner, now: int, at: int)
    requires at < EmbargoEnd(b, now)
    ensures var r := Select(catalog, flags, Dismissed(storage, b, now), at); r.Some? ==> r.value.id != b.id
  {
    SelectAfterDismiss(catalog, flags, storage, b, now, at);
  }

  // ---------------------------------------------------------------------------
  // State: the browser storage and the mounted component

  /** The browser's key-value storage: string keys, string values. */
  class LocalStorage {
    var items: map<string, string>

    constructor ()
      ensures items == map[]
    {
      items := map[];
    }

    method SetItem(key: string, value: string)
      modifies this
      ensures items == old(items)[key := value]
    {
      items := items[key := value];
    }

    method GetItem(key: string) returns (value: Option<string>)
      ensures value.Some? <==> key in items
      ensures value.Some? ==> value.value == items[key]
    {
      value := if key in items then Some(items[key]) else None;
    }
  }

  /**
   * A mounted `Banners` component: the catalog it was given, the flags it read
   * from the user context, the storage it reads and writes, and the banner it
   * currently displays (None renders nothing).
   */
  class Component {
    const catalog: seq<Banner>
    const flags: set<string>
    const storage: LocalStorage
    var showing: Option<Banner>

    /** Mounting selects the banner to display from the current storage. */
    constructor (catalog: seq<Banner>, flags: set<string>, storage: LocalStorage, now: int)
      ensures this.catalog == catalog && this.flags == flags && this.storage == storage
      ensures showing == Select(catalog, flags, storage.items, now)
    {
      this.catalog := catalog;
      this.flags := flags;
      this.storage := storage;
      showing := Select(catalog, flags, storage.items, now);
    }

    /**
     * The dismiss button of the displayed banner: the embargo end is written
     * under the banner's key and the component stops displaying anything.
     */
    method Dismiss(now: int)
      requires showing.Some?
      modifies this, storage
      ensures showing == None
      ensures storage.items == Dismissed(old(storage.items), old(showing.value), now)
    {
      var b := showing.value;
      storage.SetItem(Key(b.id), Format(EmbargoEnd(b, now)));
      showing := None;
    }
  }
}
