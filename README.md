# RSqoot coupon cache, modelled in Dafny

This project models the coupon part of the RSqoot client for the Sqoot
coupon search API (`RSqoot::Coupon`, `lib/rsqoot/coupon.rb`). That module
keeps caching state on each client and states no invariants about it. The
model covers four parts:

- **`uniq_coupons`** removes duplicate coupons that have the same title. It
  keeps one record per distinct title, in the order the titles first appear,
  and for each title it keeps the *last* record that has it.
- **`check_query_change`** builds a fingerprint of the query by appending the
  string forms of `query`, `category_slugs`, `location`, `radius`, `online`,
  `expired_in` and `per_page`. When the fingerprint differs from the stored
  one, it stores the new one and empties both the accumulated coupons and the
  list of cached pages.
- **`total_sqoot_coupons`** with **`page_cached?`**: when the requested page
  (page 1 by default) has not been fetched yet for the current query, it
  appends that page's coupons to the accumulated coupons. Then it removes
  duplicate records from both lists with `uniq!`.
- **`coupons`** and **`coupon`** each keep one memo slot. A call refetches only
  when the staleness check says the slot is out of date. After a fetch,
  `coupons` turns a missing reply into `[]`, takes each record out of its
  `coupon` wrapper, and applies `uniq_coupons` when the `uniq` option is set.

Files:

- `wrappers.dfy` holds `Option`, which stands for Ruby's `nil`.
- `ruby_values.dfy` holds the option values (String, Integer, boolean), Ruby's
  `to_s` for them (including `Integer#to_s` proved invertible), and Ruby
  truthiness.
- `ruby_array.dfy` holds `Array#uniq`/`uniq!` as `Uniq`, with its properties:
  no repeats, the same values, first-occurrence order, identity on lists
  without repeats, and prefix preservation.
- `coupon.dfy` holds module `RSqootCoupon`: the records, the title
  de-duplicator, the fingerprint, page keys, and class `Client`, whose fields
  are the instance variables `@last_coupons_query`, `@total_coupons`,
  `@cached_pages`, `@rsqoot_coupons` and `@rsqoot_coupon`.

Collaborators this file calls but does not define are inputs to the model:

- `update_by_expire_time` is the function field `Client.resolveExpiry`.
- The answers of `coupons_not_latest?` and `coupon_not_latest?` are the
  `notLatest` argument of each call.
- What the server returns is the `reply` argument. The ghost field
  `Client.requests` records every request the client sends, so "no fetch"
  means `requests` does not change.

Some behaviours of the code differ from what a reader might expect. The
model follows the code:

- `uniq_coupons` does not drop records that lack a title. A missing title is
  treated as one more title, and the last untitled record is kept
  (`UniqCouponsKeepsUntitled`).
- `uniq!` on the accumulated coupons compares whole records, not ids. Two
  records with the same id but different other attributes are both kept
  (`AccumulatedIdsMayRepeat`). What the model guarantees is that no record
  appears twice (`Client.Valid`).
- The fingerprint is a plain concatenation, so a change that moves text from
  one field to another goes unnoticed. For example, query `"pizzany"` and
  query `"pizza"` with location `"ny"` have the same fingerprint
  (`FingerprintCollision`). Changing one field's string form while the other
  fields keep theirs always changes the fingerprint
  (`FingerprintSeparatesOneField`). Values with the same string form also
  collide: radius `10` and radius `"10"` are the same to the fingerprint.
- A stale fetch whose reply is missing stores `[]` as the memo
  (coupon.rb:16), and `total_sqoot_coupons` still records the page as cached
  (coupon.rb:49). The accumulated coupons stay as they were, but that page is
  not fetched again until the fingerprint changes (`Client.TotalCoupons` with
  `rsqootCoupons == Some([])`).
- `@rsqoot_coupons` starts out as `nil`. If `total_sqoot_coupons` reaches
  `coupons` while the staleness check says "up to date" and nothing has been
  fetched yet, `@total_coupons += nil` raises a `TypeError`. The model returns
  `Outcome.TypeError` in that case.

## Model

| member | source | states |
|---|---|---|
| RubyArray.Uniq | lib/rsqoot/coupon.rb:48 | `uniq!`: the result repeats no value, and it holds exactly the values of the input. |
| RubyArray.UniqOfNoDups | lib/rsqoot/coupon.rb:49-50 | `uniq!` leaves a list without repeats unchanged (so `@cached_pages << key; uniq!` with a new key just appends it). |
| RubyArray.UniqKeepsPrefix | lib/rsqoot/coupon.rb:47-48 | Appending before `uniq!` never changes what was kept from the front: `uniq(a)` is a prefix of `uniq(a + b)`. |
| RubyArray.UniqExtends | lib/rsqoot/coupon.rb:47-48 | When the accumulated list has no repeats, it is a prefix of `uniq!` of itself plus the new page. |
| RubyArray.UniqFirstOccurrenceOrder | lib/rsqoot/coupon.rb:64 | `uniq` lists the distinct values in the order of their first occurrence in the input. |
| RubyValues.NatToString | lib/rsqoot/coupon.rb:96 | `Integer#to_s` of a non-negative integer: at least one decimal digit, and a leading `0` only for zero itself. |
| RubyValues.IntToString | lib/rsqoot/coupon.rb:96 | `Integer#to_s`: a minus sign before the digits of a negative integer; `IntToStringInjective` and `NatToStringRoundTrip` prove it loses nothing. |
| RubyValues.ToS | lib/rsqoot/coupon.rb:79-85 | `to_s` of an option value: a String as it is, an Integer in decimal, a boolean as "true" or "false". |
| RubyValues.OptToS | lib/rsqoot/coupon.rb:79-85 | `to_s` of an option that may be missing: `nil` gives the empty string. |
| RubyValues.Truthy | lib/rsqoot/coupon.rb:15 | `!!x`: only a missing value and `false` are false, so `uniq: 0` or `uniq: ""` still de-duplicates. |
| RubyValues.NatToStringRoundTrip | lib/rsqoot/coupon.rb:96 | Reading the decimal digits of `Integer#to_s` back gives the number it was written from. |
| RubyValues.IntToStringInjective | lib/rsqoot/coupon.rb:96 | Distinct integers have distinct `to_s` forms, negative ones included. |
| RSqootCoupon.TitlesOf | lib/rsqoot/coupon.rb:64 | `coupons.map(&:title)`: the title of each record, in input order, `nil` for a record without one. |
| RSqootCoupon.WithTitle | lib/rsqoot/coupon.rb:66-68 | `map { c if c.title == t }.compact`: every record it yields is an input record with title `t`. |
| RSqootCoupon.LastWithTitle | lib/rsqoot/coupon.rb:68 | `.last` of that list, `nil` when it is empty; `LastWithTitleIsLast` states what it finds. |
| RSqootCoupon.LastWithTitleIsLast | lib/rsqoot/coupon.rb:66-68 | `map { c if c.title == t }.compact.last` is `nil` exactly when no record has title `t`; otherwise it is a record with title `t` and no later record has that title. |
| RSqootCoupon.PickLast | lib/rsqoot/coupon.rb:65-69 | Mapping the titles gives one record per title, and each is the last record with that title. |
| RSqootCoupon.UniqCoupons | lib/rsqoot/coupon.rb:63-70 | `uniq_coupons`: the output titles are `uniq` of the input titles, and every output record is an input record. The closing `.flatten` leaves a list of records unchanged. |
| RSqootCoupon.UniqCouponsTitles | lib/rsqoot/coupon.rb:64-69 | The output titles are `uniq` of the input titles: each distinct input title appears exactly once, no title repeats, in first-occurrence order. |
| RSqootCoupon.UniqCouponsKeepsLast | lib/rsqoot/coupon.rb:65-68 | Every output record is an input record after which no input record has the same title. |
| RSqootCoupon.UniqCouponsIdempotent | lib/rsqoot/coupon.rb:63-70 | Applying `uniq_coupons` twice gives the same result as applying it once. |
| RSqootCoupon.UniqCouponsOfThree | lib/rsqoot/coupon.rb:63-70 | Of three records where only the first and the third share a title, the output is the third and then the second. |
| RSqootCoupon.UniqCouponsExample | lib/rsqoot/coupon.rb:63-70 | `[{1,"A"},{2,"B"},{3,"A"}]` becomes `[{3,"A"},{2,"B"}]`. |
| RSqootCoupon.UniqCouponsHasTitle | lib/rsqoot/coupon.rb:64-69 | Every title of some input record is carried by some output record. |
| RSqootCoupon.UniqCouponsTitleOnce | lib/rsqoot/coupon.rb:64-69 | No two output records carry the same title. |
| RSqootCoupon.UniqCouponsOnePerTitle | lib/rsqoot/coupon.rb:64-69 | For every input title, exactly one output record carries it, and that record is an input record after which no input record has the title. |
| RSqootCoupon.UniqCouponsKeepsUntitled | lib/rsqoot/coupon.rb:64-68 | For any input with an untitled record: exactly one untitled record is kept, and it is the last untitled input record, since `nil` counts as one more title. |
| RSqootCoupon.UniqCouponsUntitledExample | lib/rsqoot/coupon.rb:63-70 | Untitled records 1 and 3 around record 2 titled "B" become records 3 and 2. |
| RSqootCoupon.Concat | lib/rsqoot/coupon.rb:79-85 | The strings joined left to right, as the repeated `+=` builds them; `ConcatAround` and `ConcatSeparates` state how it splits. |
| RSqootCoupon.FingerprintFields | lib/rsqoot/coupon.rb:79-85 | The seven string forms that make up the fingerprint, in the order the source appends them; `page` and `uniq` are not among them. |
| RSqootCoupon.Fingerprint | lib/rsqoot/coupon.rb:79-85 | `current_query`; `FingerprintIsConcatenation` gives it written out. |
| RSqootCoupon.FingerprintIsConcatenation | lib/rsqoot/coupon.rb:79-85 | The fingerprint is the string forms of query, category_slugs, location, radius, online, expired_in and per_page, appended in that order, with `nil` as `""`. |
| RSqootCoupon.FingerprintIgnoresPageAndUniq | lib/rsqoot/coupon.rb:79-85 | Changing only `page` or `uniq` never changes the fingerprint. |
| RSqootCoupon.FingerprintSeparatesOneField | lib/rsqoot/coupon.rb:79-86 | When only one fingerprint field's string form changes, the fingerprint changes, so the reset happens. |
| RSqootCoupon.FingerprintCollision | lib/rsqoot/coupon.rb:79-86 | Two different option sets can share a fingerprint: query "pizzany" and query "pizza" with location "ny". |
| RSqootCoupon.RequestedPage | lib/rsqoot/coupon.rb:44 | The page `total_sqoot_coupons` works on: a missing or `false` `:page` option means page 1, and any other value is used as given. |
| RSqootCoupon.PageKey | lib/rsqoot/coupon.rb:49 | `page.to_s`, the key a page is recorded and looked up under; on page numbers it is injective (`PageKeys`). |
| RSqootCoupon.DefaultPageKey | lib/rsqoot/coupon.rb:44 | When the page is missing (or `false`), the page looked up and recorded is "1". |
| RSqootCoupon.PageKeys | lib/rsqoot/coupon.rb:96 | Distinct page numbers get distinct cache keys, and page `n` shares its key with page `"n"`. |
| RSqootCoupon.Unwrap | lib/rsqoot/coupon.rb:17 | `.coupons.map(&:coupon)`: the record inside each wrapper, in reply order. |
| RSqootCoupon.Normalise | lib/rsqoot/coupon.rb:15-18 | The list `coupons` stores after a fetch; `NormaliseSpec` states its properties. |
| RSqootCoupon.ListRequest | lib/rsqoot/coupon.rb:15-16 | The request `coupons` sends: path "coupons" and the options with `uniq` deleted. |
| RSqootCoupon.NormaliseSpec | lib/rsqoot/coupon.rb:15-18 | A missing reply becomes `[]`, and every stored record comes from the reply. Without `uniq` the stored list is the unwrapped reply, in order. With `uniq` it is `uniq_coupons` of the unwrapped reply and no title repeats. |
| RSqootCoupon.AccumulatedIdsMayRepeat | lib/rsqoot/coupon.rb:47-48 | `uniq!` keeps two records that share an id but differ in another attribute. |
| RSqootCoupon.Client.Valid | lib/rsqoot/coupon.rb:47-50 | The invariant the `uniq!` calls keep: neither the accumulated coupons nor the cached page keys hold a value twice. Every method that changes the client preserves it. |
| RSqootCoupon.Client.PageCached | lib/rsqoot/coupon.rb:95-97 | `page_cached?`: the page's `to_s` form is among the recorded page keys. |
| RSqootCoupon.Client.constructor | lib/rsqoot/coupon.rb:42-43 | The starting state is what the lazy initialisations give: empty fingerprint, no accumulated coupons, no cached pages, empty memo slots, nothing sent. |
| RSqootCoupon.Client.Coupons | lib/rsqoot/coupon.rb:12-22 | When stale: sends one "coupons" request with `uniq` removed, then stores and returns the normalised reply. When not stale: sends nothing and returns the stored slot. The page accumulator is not changed either way. |
| RSqootCoupon.Client.CouponById | lib/rsqoot/coupon.rb:26-34 | When stale: sends one "coupons/<id>" request, then stores and returns the unwrapped record, or `nil` when the reply is missing. When not stale: sends nothing and returns the stored slot. |
| RSqootCoupon.Client.CheckQueryChange | lib/rsqoot/coupon.rb:76-91 | Always leaves the current fingerprint stored. A changed fingerprint empties the accumulated coupons and the cached pages together. An unchanged one leaves every field as it was. |
| RSqootCoupon.Client.TotalCoupons | lib/rsqoot/coupon.rb:41-53 | After the query check: a page already cached returns the accumulated coupons with no fetch and no change. Otherwise the page goes through `Coupons`. A `nil` result raises TypeError. A list result makes the accumulated coupons `uniq` of the old ones plus the page, with the old ones kept as a prefix, and appends the page key. Both lists stay free of repeats. |
| RSqootCoupon.TotalCouponsRepeated | lib/rsqoot/coupon.rb:44-52 | Two identical calls in a row send at most one request between them, whatever the replies. When the first accumulates, the second returns the same coupons, sends nothing, and leaves the accumulated coupons as the first returned them. |
| RSqootCoupon.IdentityIsPageBlind | lib/rsqoot/coupon.rb:77-85 | A resolver that returns the options unchanged keeps the page out of the fingerprint, so such clients satisfy the requires of `TotalCouponsNextPage`. |
| RSqootCoupon.TotalCouponsNextPage | lib/rsqoot/coupon.rb:40-53 | With a resolver that keeps the page out of the fingerprint, asking for page `p` after another page of the same query keeps what the first call accumulated as a prefix, and both page keys end up cached. |
| RSqootCoupon.TotalCouponsAfterQueryChange | lib/rsqoot/coupon.rb:45-50 | After a call with a new fingerprint that accumulates, only that call's page is cached, and the accumulated coupons are exactly the distinct records that `coupons` returned. |

## Left out

- `impression` is left out: it only wraps `url_generator`, which is not part of this model.
- `get`, `SqootCoupon` deserialisation and HTTP transport are network I/O. The server's reply is an argument, and transport errors are not modelled.
- `logger` and `sqoot_query_uri` only produce diagnostics and do not affect any result.
- `update_by_expire_time`, `coupons_not_latest?` and `coupon_not_latest?` are defined outside this file. The first is the function field `resolveExpiry`, one fixed function of the options. `TotalCouponsRepeated` and the cached-page case of `TotalCoupons` rely on two calls with the same options seeing the same resolved options; an `update_by_expire_time` that reads the clock could break that, and is not modelled. Nothing else is assumed of `resolveExpiry`. The client fingerprints the resolved options, so `FingerprintIgnoresPageAndUniq` reaches the client only through `PageBlind(resolveExpiry)`, the requires of `TotalCouponsNextPage`. The two staleness checks are the `notLatest` argument, so "coupon(42) twice fetches once" depends on those checks and is not proved.
- `options.delete(:uniq)` runs on what `update_by_expire_time` returned, so it changes the caller's hash only when that function returns its argument. The model clears `uniq` only in the options it sends.
- Aliasing of returned arrays: `total_sqoot_coupons` returns the live `@total_coupons` and `coupons` the live `@rsqoot_coupons`. A caller that changes such an array changes the cache. A later cached-page call then returns the changed array, and a later `coupons` call that does not refetch adds the changed memo. The model's lists are values, so it cannot express this, and `Client.Valid` (no repeats) holds only while callers leave returned arrays alone.
- Option values are limited to String, Integer and boolean. Ruby's `to_s` for arrays, symbols and floats (for example an array of category slugs) is not modelled.
- The lazy `||=` initialisation is modelled as the constructor's empty values. The only difference is a client whose first call already finds a non-empty state, which cannot happen.
- Concurrency: the client is used from one thread.
