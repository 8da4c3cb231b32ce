# Banner selection and embargo engine

This project models the engine behind kuma's `Banners` component. The behaviour
comes from its test suite, `kuma/javascript/src/banners.test.js`. The engine
has three parts:

- **Selection.** Given an ordered catalog of banners, the user's active waffle
  flags, the browser's `localStorage` and the current time, the component
  shows at most one banner. It shows the first banner in catalog order whose
  flag is set and that is not embargoed.
- **Embargo.** An embargo is a timestamp stored as a decimal string under the
  key `banner.<id>.embargoed_until`. A banner is embargoed while that
  timestamp lies after `now`.
- **Dismissal.** Clicking the dismiss button of the shown banner writes
  `now + (embargoDays || 5) * 86400000` under that banner's key. The component
  then shows nothing. A fresh mount skips the dismissed banner.

The component's implementation file, `banners.jsx`, is not part of this model.
Every definition here states what the tests assert about it, and nothing more.

Files:

- `decimal.dfy`: module `Options` (the `Option` type) and module `Decimal`.
  `Decimal` holds `Format`, which is JavaScript's `String(n)` on an integer, and
  `ParseTimestamp`, which reads the text back. Their round trip is proved.
- `banners.dfy`: module `Banners`.
  - The `Banner` record and the storage key format with its inverse.
  - `Select` as a recursive first-match search. Its contract says it returns
    the first showable banner in catalog order, and none when no banner is
    showable.
  - The dismissal arithmetic and the storage update it makes.
  - Lemmas tying dismissal to later selections.
  - Two classes for the state that changes in place. `LocalStorage` is a
    string map. `Component` is a mounted component with its `showing` slot.
- `banners_test.dfy`: module `BannersTest`. It states the suite's tests:
  - General lemmas for any catalog: no flags set, a single flag set, catalog
    order, and every active banner embargoed.
  - Lemmas on the suite's own two-banner catalog for the single-flag,
    both-flags, first-embargoed, both-embargoed, expiry and dismissal tests.
  - `BannersCanBeDismissed`, which replays the dismissal test on the classes.

  The general forms of the expiry and dismissal behaviour are in module
  `Banners`: `ExpiredEmbargoIgnored`, `SelectAfterDismiss` and
  `DismissedNotReselected`.

Time is an explicit `now: int` in epoch milliseconds. Flags are the set of
banner ids whose flag is `true`.

Assumptions and choices:

- **Embargo boundary.** A stored end equal to `now` counts as expired. The
  predicate is `now < until`. The tests use only `now - 1` and `now + 10000`,
  so they do not fix this case. It is a modelling choice, not a proved fact
  about the component.
- **Display after dismissal.** After a click, the mounted component shows
  nothing (test lines 198-199 and 232-233). Only a fresh mount selects again,
  and it then picks the next showable banner.
- **Default day count.** The default follows the test's expression
  `embargoDays || 5`. A missing or zero count becomes 5. Any other count,
  negative ones included, is used as given. A rule of "positive count, else 5"
  would differ only for negative counts.
- **Malformed stored values.** A stored value that is empty or not a decimal
  integer reads as no embargo (`MalformedEmbargoIgnored`). The tests never
  store such a value, so this is a modelling choice.
- **Unique ids.** The general forms of the single-flag and catalog-order tests
  require that no two catalog entries share an id. The suite's catalog meets
  this.

## Model

| member | source | states |
|---|---|---|
| `Decimal.Format` | kuma/javascript/src/banners.test.js:87-90 | `String(n)` of an integer timestamp is non-empty and starts with a minus sign exactly when the timestamp is negative |
| `Decimal.ParseTimestamp` | kuma/javascript/src/banners.test.js:202-205 | reading a stored value: text reads as a timestamp exactly when it is one or more digits, optionally after a minus sign; the value is the digits' decimal value, negated after a minus sign; empty or non-numeric text reads as None |
| `Decimal.FormatRoundTrip` | kuma/javascript/src/banners.test.js:202-205 | for every integer, reading back what `String(n)` wrote gives `n` |
| `Banners.Key` | kuma/javascript/src/banners.test.js:88 | the key is `banner.`, then the id, then `.embargoed_until`, and nothing else |
| `Banners.KeyRoundTrip` | kuma/javascript/src/banners.test.js:88 | the id read back out of `banner.<id>.embargoed_until` is `id` |
| `Banners.KeyOfId` | kuma/javascript/src/banners.test.js:88 | any key that reads as the embargo key of `id` is exactly `banner.<id>.embargoed_until` |
| `Banners.KeyInjective` | kuma/javascript/src/banners.test.js:202-204 | two different banner ids never share an embargo key |
| `Banners.EmbargoedUntil` | kuma/javascript/src/banners.test.js:202-205 | a banner's stored embargo end exists exactly when its key is present and holds timestamp text; a value written as `String(t)` reads as `t` |
| `Banners.Embargoed` | kuma/javascript/src/banners.test.js:134-171 | a banner is not embargoed exactly when it has no readable stored end or that end is at or before `now` (the chosen boundary); a missing key never embargoes |
| `Banners.Select` | kuma/javascript/src/banners.test.js:58-108 | at most one banner is shown. Nothing is shown exactly when no entry has its flag set and no current embargo. A shown banner is in the catalog, has its flag set and is not embargoed. When entry `i` is showable and no earlier entry is, entry `i` is shown |
| `Banners.ExpiredEmbargoIgnored` | kuma/javascript/src/banners.test.js:134-171 | an embargo whose end is not after `now` changes no selection: storage holding it selects exactly as storage without the key |
| `Banners.MalformedEmbargoIgnored` | kuma/javascript/src/banners.test.js:202-205 | a stored value that does not read as a timestamp changes no selection: storage holding it selects exactly as storage without the key |
| `Banners.EmbargoDays` | kuma/javascript/src/banners.test.js:207 | `embargoDays \|\| 5`: never zero; either the default 5 or the banner's own count; the banner's own count whenever it is set and non-zero |
| `Banners.EmbargoEnd` | kuma/javascript/src/banners.test.js:207 | the embargo end lies exactly `days * 86400000` milliseconds after `now`, so at least one day ahead when the day count is positive |
| `Banners.Dismissed` | kuma/javascript/src/banners.test.js:193-204 | the storage after a click gains the banner's key, which reads back as the embargo end; every other entry keeps its value |
| `Banners.WithoutIdAppend` | kuma/javascript/src/banners.test.js:212-223 | removing the dismissed id from a catalog keeps the order of the remaining banners, which `SelectAfterDismiss` relies on |
| `Banners.DismissRecordsEmbargo` | kuma/javascript/src/banners.test.js:201-210 | after dismissing banner `b` at `now`, `b`'s key reads back as `now + (embargoDays \|\| 5) * 86400000` |
| `Banners.DismissKeepsOthers` | kuma/javascript/src/banners.test.js:235-242 | dismissing one banner leaves the stored embargo of every other id unchanged |
| `Banners.SelectAfterDismiss` | kuma/javascript/src/banners.test.js:212-223 | at any time before the new embargo ends, selecting from the storage after dismissing `b` gives the same result as selecting from the old storage in the catalog without `b` |
| `Banners.DismissedNotReselected` | kuma/javascript/src/banners.test.js:244-251 | before its embargo ends, a dismissed banner's id is never selected again |
| `Banners.LocalStorage.SetItem` | kuma/javascript/src/banners.test.js:87-90 | `setItem` overwrites one key and leaves the other entries as they were |
| `Banners.LocalStorage.GetItem` | kuma/javascript/src/banners.test.js:202-204 | `getItem` returns the stored value for a present key and nothing for an absent one |
| `Banners.Component.constructor` | kuma/javascript/src/banners.test.js:32-36 | mounting the component displays the selection for the catalog, the flags and the current storage |
| `Banners.Component.Dismiss` | kuma/javascript/src/banners.test.js:190-199 | clicking dismiss writes the shown banner's embargo end under its key, changes no other entry, and empties the display at once |
| `BannersTest.NoFlagsRendersNothing` | kuma/javascript/src/banners.test.js:31-39 | with no flags set, nothing is rendered for any catalog, storage and time |
| `BannersTest.SingleFlagRendersItsBanner` | kuma/javascript/src/banners.test.js:41-56 | with only banner `i`'s flag set and no current embargo on it, exactly banner `i` is rendered, with its own title, copy, cta and url |
| `BannersTest.SuiteSingleFlags` | kuma/javascript/src/banners.test.js:41-56 | on the suite's catalog, only `flag1` set renders the first banner and only `flag2` set renders the second |
| `BannersTest.EarlierBannerWins` | kuma/javascript/src/banners.test.js:58-79 | when an earlier entry is showable, a later entry is never the one rendered |
| `BannersTest.BothFlagsRenderFirst` | kuma/javascript/src/banners.test.js:58-79 | on the suite's catalog with both flags set and empty storage, the first banner is rendered |
| `BannersTest.FirstEmbargoedRendersSecond` | kuma/javascript/src/banners.test.js:81-108 | `flag1` embargoed until `now + 10000` makes the second banner the one rendered |
| `BannersTest.AllEmbargoedRendersNothing` | kuma/javascript/src/banners.test.js:110-132 | when every banner whose flag is set is embargoed, nothing is rendered |
| `BannersTest.BothEmbargoedRendersNothing` | kuma/javascript/src/banners.test.js:110-132 | on the suite's catalog, both banners embargoed until `now + 10000` render nothing |
| `BannersTest.EmbargoesExpire` | kuma/javascript/src/banners.test.js:134-171 | with `flag1` until `now + 10000` and `flag2` until `now - 1`, the second banner is rendered. After `flag1` is reset to `now - 1`, the first banner is rendered again |
| `BannersTest.DismissFirstRendersSecond` | kuma/javascript/src/banners.test.js:212-223 | after the first banner is dismissed at `now`, a fresh mount at `now` renders the second |
| `BannersTest.DismissBothRendersNothing` | kuma/javascript/src/banners.test.js:244-251 | after both banners are dismissed at `now`, a fresh mount at `now` renders nothing |
| `BannersTest.BannersCanBeDismissed` | kuma/javascript/src/banners.test.js:173-251 | the whole dismissal test on the classes. Mounting shows `flag1`; dismissing empties the display and stores `now + 86400000`. Remounting shows `flag2`; dismissing empties the display and stores `now + 2 * 86400000`. The last mount shows nothing |

## Left out

- Rendering is left out: React, `react-test-renderer` and the `UserProvider` context. The rendered output is `Option<Banner>`. Showing a banner means showing its title, copy, cta and url, and its dismiss button.
- `Date.now()` becomes the parameter `now`. The tests allow up to 100 ms of clock drift (lines 206-210 and 238-242). The model uses exact equality instead.
- Reading the value back is stricter than JavaScript's `parseInt`. `parseInt` skips leading whitespace, accepts `+` and ignores trailing text. `ParseTimestamp` accepts only an optional `-` followed by digits, and treats anything else as no embargo. Values the engine writes always read back exactly, as `FormatRoundTrip` shows.
- Day counts and timestamps are integers. Fractional or `NaN` day counts and the float range of JavaScript numbers are not modelled.
- `Banners.Component.Dismiss` requires a banner to be shown. The dismiss button exists only in that case (line 190).
- Dismissing an id that is not in the catalog is left out. The tests dismiss only through the shown banner's button, so that id is always in the catalog.
- Failed storage writes and persistence across restarts are left out. `LocalStorage` is an in-memory map.
- Flags and storage leak from one test to the next through `mockUserData.waffle.flags` and `localStorage`. The model ignores this. Each scenario states the storage it starts from. The dismissal test's expired leftovers would select exactly as an empty storage does (see `ExpiredEmbargoIgnored`).
