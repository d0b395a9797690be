/** The coupon part of the Sqoot API client (`RSqoot::Coupon`): a one-slot
    memo of the last coupon list and of the last single coupon, a
    de-duplicator that collapses coupons sharing a title, and an accumulator
    that merges successive result pages of one query and starts over
    whenever the query changes. */
module RSqootCoupon {
  import opened Wrappers
  import opened RubyValues
  import opened RubyArray

  /** A coupon record as the API returns it. Records are equal only when
      every attribute agrees; `details` stands for every attribute other than
      the id and the title. A record may lack a title. */
  datatype Coupon = Coupon(id: int, title: Option<string>, details: string)

  /** One element of a reply: the `coupon` wrapper around a record. */
  datatype Entry = Entry(coupon: Coupon)

  /** The query options the caller passes; a missing key is `None`. */
  datatype Options = Options(
    query: Option<Value>,
    categorySlugs: Option<Value>,
    location: Option<Value>,
    radius: Option<Value>,
    online: Option<Value>,
    expiredIn: Option<Value>,
    perPage: Option<Value>,
    page: Option<Value>,
    uniq: Option<Value>)

  /** A request sent to the API: the resource path and the options sent. */
  datatype Request = Request(path: string, options: Options)

  /** What `total_sqoot_coupons` does: return the accumulated coupons, or
      raise Ruby's TypeError when the memoised list it adds is still `nil`. */
  datatype Outcome = Accumulated(coupons: seq<Coupon>) | TypeError

  // ---------------------------------------------------------------------
  // De-duplication by title (`uniq_coupons`)
  // ---------------------------------------------------------------------

  /** `coupons.map(&:title)`. */
  function TitlesOf(cs: seq<Coupon>): seq<Option<string>> {
    seq(|cs|, i requires 0 <= i < |cs| => cs[i].title)
  }

  /** `coupons.map { |c| c if c.title == t }.compact`: the records carrying
      title `t`, in input order. */
  function WithTitle(cs: seq<Coupon>, t: Option<string>): (r: seq<Coupon>)
    ensures forall k :: 0 <= k < |r| ==> r[k] in cs && r[k].title == t
  {
    if cs == [] then []
    else
      var p := cs[..|cs| - 1];
      assert cs == p + [cs[|cs| - 1]];
      WithTitle(p, t) + (if cs[|cs| - 1].title == t then [cs[|cs| - 1]] else [])
  }

  /** `.last` of that list: `nil` when no record carries the title. */
  function LastWithTitle(cs: seq<Coupon>, t: Option<string>): (r: Option<Coupon>)
  {
    var m := WithTitle(cs, t);
    if m == [] then None else Some(m[|m| - 1])
  }

  /** No record after position `i` has the title of the record at `i`. */
  ghost predicate IsLastOfTitle(cs: seq<Coupon>, i: int)
    requires 0 <= i < |cs|
  {
    forall j :: i < j < |cs| ==> cs[j].title != cs[i].title
  }

  /** How the title helpers see one more record appended. */
  lemma TitlesSnoc(p: seq<Coupon>, c: Coupon, t: Option<string>)
    ensures TitlesOf(p + [c]) == TitlesOf(p) + [c.title]
    ensures WithTitle(p + [c], t) == WithTitle(p, t) + (if c.title == t then [c] else [])
  {
    assert (p + [c])[..|p + [c]| - 1] == p;
  }

  /** A title is found exactly when some record carries it, and what is
      found is the last record carrying it. */
  lemma {:induction false} LastWithTitleIsLast(cs: seq<Coupon>, t: Option<string>)
    ensures LastWithTitle(cs, t).Some? <==> t in TitlesOf(cs)
    ensures LastWithTitle(cs, t).Some? ==>
      exists i :: 0 <= i < |cs| && cs[i] == LastWithTitle(cs, t).value && cs[i].title == t && IsLastOfTitle(cs, i)
  {
    if cs != [] {
      var p, c := cs[..|cs| - 1], cs[|cs| - 1];
      assert cs == p + [c];
      TitlesSnoc(p, c, t);
      if c.title == t {
        assert IsLastOfTitle(cs, |p|);
      } else {
        LastWithTitleIsLast(p, t);
        if LastWithTitle(p, t).Some? {
          var i :| 0 <= i < |p| && p[i] == LastWithTitle(p, t).value && p[i].title == t && IsLastOfTitle(p, i);
          assert cs[i] == p[i];
          assert IsLastOfTitle(cs, i);
        }
      }
    }
  }

  /** `titles.map { |t| ... .last }`: for each title, the last record with it. */
  function PickLast(cs: seq<Coupon>, ts: seq<Option<string>>): (r: seq<Coupon>)
    requires forall k :: 0 <= k < |ts| ==> ts[k] in TitlesOf(cs)
    ensures |r| == |ts|
    ensures forall k :: 0 <= k < |ts| ==> LastWithTitle(cs, ts[k]) == Some(r[k])
    ensures forall k :: 0 <= k < |r| ==> r[k] in cs && r[k].title == ts[k]
  {
    if ts == [] then []
    else
      LastWithTitleIsLast(cs, ts[0]);
      [LastWithTitle(cs, ts[0]).value] + PickLast(cs, ts[1..])
  }

  /** `uniq_coupons`: one record per distinct title, the last one carrying it.
      The closing `.flatten` leaves a list of records as it is, so it does
      not appear here. */
  function UniqCoupons(cs: seq<Coupon>): (r: seq<Coupon>)
    ensures TitlesOf(r) == Uniq(TitlesOf(cs))
    ensures forall k :: 0 <= k < |r| ==> r[k] in cs
  {
    var ts := Uniq(TitlesOf(cs));
    var r := PickLast(cs, ts);
    assert forall k :: 0 <= k < |r| ==> TitlesOf(r)[k] == ts[k];
    r
  }

  /** `UniqCoupons` unfolded, the last record of each distinct title; a
      hint that lets `UniqCouponsOfThree` reach `PickLast` directly. */
  lemma UniqCouponsPicksLast(cs: seq<Coupon>)
    ensures UniqCoupons(cs) == PickLast(cs, Uniq(TitlesOf(cs)))
  {
  }

  /** The output has one record per distinct input title and no title twice,
      listed in the order in which the titles first occur in the input. */
  lemma UniqCouponsTitles(cs: seq<Coupon>)
    ensures TitlesOf(UniqCoupons(cs)) == Uniq(TitlesOf(cs))
    ensures NoDups(TitlesOf(UniqCoupons(cs)))
    ensures forall t :: t in TitlesOf(UniqCoupons(cs)) <==> t in TitlesOf(cs)
    ensures forall i, j :: 0 <= i < j < |UniqCoupons(cs)| ==>
      IndexOf(TitlesOf(cs), UniqCoupons(cs)[i].title) < IndexOf(TitlesOf(cs), UniqCoupons(cs)[j].title)
  {
    var ts := Uniq(TitlesOf(cs));
    var r := UniqCoupons(cs);
    forall k | 0 <= k < |ts| ensures r[k].title == ts[k] {
      LastWithTitleIsLast(cs, ts[k]);
    }
    assert TitlesOf(r) == ts;
    UniqFirstOccurrenceOrder(TitlesOf(cs));
  }

  /** Every output record is an input record after which no input record has
      the same title. */
  lemma UniqCouponsKeepsLast(cs: seq<Coupon>)
    ensures forall k :: 0 <= k < |UniqCoupons(cs)| ==>
      exists i :: 0 <= i < |cs| && cs[i] == UniqCoupons(cs)[k] && IsLastOfTitle(cs, i)
  {
    var ts := Uniq(TitlesOf(cs));
    var r := UniqCoupons(cs);
    forall k | 0 <= k < |r|
      ensures exists i :: 0 <= i < |cs| && cs[i] == r[k] && IsLastOfTitle(cs, i)
    {
      LastWithTitleIsLast(cs, ts[k]);
    }
  }

  /** In a list whose titles are all distinct, each record is the last, and
      only, one with its title. */
  lemma LastWithDistinctTitles(r: seq<Coupon>, k: nat)
    requires NoDups(TitlesOf(r)) && k < |r|
    ensures LastWithTitle(r, r[k].title) == Some(r[k])
  {
    LastWithTitleIsLast(r, r[k].title);
    assert TitlesOf(r)[k] == r[k].title;
    var i :| 0 <= i < |r| && r[i] == LastWithTitle(r, r[k].title).value && r[i].title == r[k].title;
    assert TitlesOf(r)[i] == TitlesOf(r)[k];
  }

  /** De-duplicating an already de-duplicated list changes nothing. */
  lemma UniqCouponsIdempotent(cs: seq<Coupon>)
    ensures UniqCoupons(UniqCoupons(cs)) == UniqCoupons(cs)
  {
    var r := UniqCoupons(cs);
    UniqCouponsTitles(cs);
    UniqOfNoDups(TitlesOf(r));
    var rr := UniqCoupons(r);
    assert |rr| == |r|;
    forall k | 0 <= k < |r| ensures rr[k] == r[k] {
      LastWithDistinctTitles(r, k);
    }
  }

  /** The last record of each title among three records where only the
      first and the third share a title. */
  lemma LastOfThree(c1: Coupon, c2: Coupon, c3: Coupon)
    requires c1.title == c3.title != c2.title
    ensures LastWithTitle([c1, c2, c3], c1.title) == Some(c3)
    ensures LastWithTitle([c1, c2, c3], c2.title) == Some(c2)
  {
    var t1, t2 := c1.title, c2.title;
    TitlesSnoc([], c1, t1);
    TitlesSnoc([], c1, t2);
    assert [] + [c1] == [c1];
    TitlesSnoc([c1], c2, t1);
    TitlesSnoc([c1], c2, t2);
    assert [c1] + [c2] == [c1, c2];
    TitlesSnoc([c1, c2], c3, t1);
    TitlesSnoc([c1, c2], c3, t2);
    assert [c1, c2] + [c3] == [c1, c2, c3];
  }

  /** Of three records where only the first and the third share a title,
      the third and then the second remain. */
  lemma UniqCouponsOfThree(c1: Coupon, c2: Coupon, c3: Coupon)
    requires c1.title == c3.title != c2.title
    ensures UniqCoupons([c1, c2, c3]) == [c3, c2]
  {
    var cs := [c1, c2, c3];
    var ts := [c1.title, c2.title];
    assert TitlesOf(cs) == [c1.title, c2.title, c1.title];
    UniqOfABA(c1.title, c2.title);
    LastOfThree(c1, c2, c3);
    var r := PickLast(cs, ts);
    assert LastWithTitle(cs, ts[0]) == Some(r[0]);
    assert LastWithTitle(cs, ts[1]) == Some(r[1]);
    assert r == [c3, c2];
    UniqCouponsPicksLast(cs);
  }

  /** Titles "A", "B", "A" with ids 1, 2, 3 keep ids 3 and 2, in title order. */
  lemma UniqCouponsExample()
    ensures UniqCoupons([Coupon(1, Some("A"), ""), Coupon(2, Some("B"), ""), Coupon(3, Some("A"), "")])
         == [Coupon(3, Some("A"), ""), Coupon(2, Some("B"), "")]
  {
    UniqCouponsOfThree(Coupon(1, Some("A"), ""), Coupon(2, Some("B"), ""), Coupon(3, Some("A"), ""));
  }

  /** Every input title is carried by some output record. */
  lemma UniqCouponsHasTitle(cs: seq<Coupon>, t: Option<string>)
    requires t in TitlesOf(cs)
    ensures exists k :: 0 <= k < |UniqCoupons(cs)| && UniqCoupons(cs)[k].title == t
  {
    var ts := Uniq(TitlesOf(cs));
    var n :| 0 <= n < |TitlesOf(cs)| && TitlesOf(cs)[n] == t;
    assert t in ts;
    var k :| 0 <= k < |ts| && ts[k] == t;
    assert TitlesOf(UniqCoupons(cs))[k] == t;
  }

  /** No two output records share a title. */
  lemma UniqCouponsTitleOnce(cs: seq<Coupon>, t: Option<string>)
    ensures forall k, k' :: (0 <= k < |UniqCoupons(cs)| && 0 <= k' < |UniqCoupons(cs)| &&
      UniqCoupons(cs)[k].title == t && UniqCoupons(cs)[k'].title == t) ==> k == k'
  {
    var r := UniqCoupons(cs);
    forall k, k' | 0 <= k < |r| && 0 <= k' < |r| && r[k].title == t && r[k'].title == t
      ensures k == k'
    {
      assert TitlesOf(r)[k] == TitlesOf(r)[k'];
    }
  }

  /** Every input title is carried by exactly one output record, and that
      record is the last input record with the title. */
  lemma UniqCouponsOnePerTitle(cs: seq<Coupon>, t: Option<string>)
    requires t in TitlesOf(cs)
    ensures exists k :: 0 <= k < |UniqCoupons(cs)| && UniqCoupons(cs)[k].title == t
    ensures forall k, k' :: (0 <= k < |UniqCoupons(cs)| && 0 <= k' < |UniqCoupons(cs)| &&
      UniqCoupons(cs)[k].title == t && UniqCoupons(cs)[k'].title == t) ==> k == k'
    ensures forall k :: (0 <= k < |UniqCoupons(cs)| && UniqCoupons(cs)[k].title == t) ==>
      exists i :: 0 <= i < |cs| && cs[i] == UniqCoupons(cs)[k] && IsLastOfTitle(cs, i)
  {
    UniqCouponsHasTitle(cs, t);
    UniqCouponsTitleOnce(cs, t);
    UniqCouponsKeepsLast(cs);
  }

  /** A record without a title is not dropped: when some input record has no
      title, exactly one output record has none, and it is the last untitled
      input record. */
  lemma UniqCouponsKeepsUntitled(cs: seq<Coupon>)
    requires None in TitlesOf(cs)
    ensures exists k :: 0 <= k < |UniqCoupons(cs)| && UniqCoupons(cs)[k].title == None
    ensures forall k, k' :: (0 <= k < |UniqCoupons(cs)| && 0 <= k' < |UniqCoupons(cs)| &&
      UniqCoupons(cs)[k].title == None && UniqCoupons(cs)[k'].title == None) ==> k == k'
    ensures forall k :: (0 <= k < |UniqCoupons(cs)| && UniqCoupons(cs)[k].title == None) ==>
      exists i :: 0 <= i < |cs| && cs[i] == UniqCoupons(cs)[k] && IsLastOfTitle(cs, i)
  {
    UniqCouponsOnePerTitle(cs, None);
  }

  /** Untitled records 1 and 3 around record 2 titled "B" keep records 3 and 2. */
  lemma UniqCouponsUntitledExample()
    ensures UniqCoupons([Coupon(1, None, ""), Coupon(2, Some("B"), ""), Coupon(3, None, "")])
         == [Coupon(3, None, ""), Coupon(2, Some("B"), "")]
  {
    UniqCouponsOfThree(Coupon(1, None, ""), Coupon(2, Some("B"), ""), Coupon(3, None, ""));
  }

  // ---------------------------------------------------------------------
  // Query fingerprint (`check_query_change`) and page keys (`page_cached?`)
  // ---------------------------------------------------------------------

  /** Strings joined left to right, as repeated `+=` builds them. */
  function Concat(parts: seq<string>): string {
    if parts == [] then "" else Concat(parts[..|parts| - 1]) + parts[|parts| - 1]
  }

  /** The string forms that make up the fingerprint, in their fixed order;
      `page` and `uniq` are not among them. */
  function FingerprintFields(o: Options): seq<string> {
    [OptToS(o.query), OptToS(o.categorySlugs), OptToS(o.location), OptToS(o.radius),
     OptToS(o.online), OptToS(o.expiredIn), OptToS(o.perPage)]
  }

  /** `current_query`: the concatenated string forms of the query fields. */
  function Fingerprint(o: Options): string {
    Concat(FingerprintFields(o))
  }

  /** The joined string splits around any one part. */
  lemma {:induction false} ConcatAround(parts: seq<string>, k: nat)
    requires k < |parts|
    ensures Concat(parts) == Concat(parts[..k]) + parts[k] + Concat(parts[k + 1..])
  {
    var n := |parts|;
    if k == n - 1 {
      assert parts[..k] == parts[..n - 1];
      assert parts[k + 1..] == [];
    } else {
      var p := parts[..n - 1];
      ConcatAround(p, k);
      assert p[..k] == parts[..k];
      assert p[k + 1..] == parts[k + 1..n - 1];
      assert parts[k + 1..][..|parts[k + 1..]| - 1] == parts[k + 1..n - 1];
    }
  }

  /** The fingerprint is the seven string forms appended in their fixed order. */
  lemma FingerprintIsConcatenation(o: Options)
    ensures Fingerprint(o) == OptToS(o.query) + OptToS(o.categorySlugs) + OptToS(o.location)
      + OptToS(o.radius) + OptToS(o.online) + OptToS(o.expiredIn) + OptToS(o.perPage)
  {
    var fs := FingerprintFields(o);
    assert Concat(fs[..1]) == fs[0] by { assert fs[..1][..0] == []; }
    assert Concat(fs[..2]) == Concat(fs[..1]) + fs[1] by { assert fs[..2][..1] == fs[..1]; }
    assert Concat(fs[..3]) == Concat(fs[..2]) + fs[2] by { assert fs[..3][..2] == fs[..2]; }
    assert Concat(fs[..4]) == Concat(fs[..3]) + fs[3] by { assert fs[..4][..3] == fs[..3]; }
    assert Concat(fs[..5]) == Concat(fs[..4]) + fs[4] by { assert fs[..5][..4] == fs[..4]; }
    assert Concat(fs[..6]) == Concat(fs[..5]) + fs[5] by { assert fs[..6][..5] == fs[..5]; }
    assert Concat(fs) == Concat(fs[..6]) + fs[6] by { assert fs[..|fs| - 1] == fs[..6]; }
  }

  /** Two part lists that agree everywhere but at `k` join to different
      strings exactly when they differ at `k`. */
  lemma ConcatSeparates(a: seq<string>, b: seq<string>, k: nat)
    requires |a| == |b| && k < |a|
    requires forall j :: 0 <= j < |a| && j != k ==> a[j] == b[j]
    ensures Concat(a) == Concat(b) <==> a[k] == b[k]
  {
    ConcatAround(a, k);
    ConcatAround(b, k);
    assert a[..k] == b[..k];
    assert a[k + 1..] == b[k + 1..];
    if Concat(a) == Concat(b) {
      var pre := Concat(a[..k]);
      var post := Concat(a[k + 1..]);
      assert |a[k]| == |b[k]|;
      assert a[k] == Concat(a)[|pre|..|pre| + |a[k]|];
      assert b[k] == Concat(b)[|pre|..|pre| + |b[k]|];
    }
  }

  /** The page number and the `uniq` flag never enter the fingerprint. */
  lemma FingerprintIgnoresPageAndUniq(o: Options, page: Option<Value>, uniq: Option<Value>)
    ensures Fingerprint(o.(page := page, uniq := uniq)) == Fingerprint(o)
  {
  }

  /** Changing the string form of one fingerprint field, and nothing else
      there, changes the fingerprint. */
  lemma FingerprintSeparatesOneField(o1: Options, o2: Options, k: nat)
    requires k < 7
    requires forall j :: 0 <= j < 7 && j != k ==> FingerprintFields(o1)[j] == FingerprintFields(o2)[j]
    requires FingerprintFields(o1)[k] != FingerprintFields(o2)[k]
    ensures Fingerprint(o1) != Fingerprint(o2)
  {
    ConcatSeparates(FingerprintFields(o1), FingerprintFields(o2), k);
  }

  /** The options with only a query, and no other key. */
  function QueryOnly(q: string): Options {
    Options(Some(Str(q)), None, None, None, None, None, None, None, None)
  }

  /** Changes spread over two fields can cancel out: query "pizzany" alone
      and query "pizza" with location "ny" share a fingerprint, so moving to
      the second does not reset what was accumulated for the first. */
  lemma FingerprintCollision()
    ensures QueryOnly("pizzany") != QueryOnly("pizza").(location := Some(Str("ny")))
    ensures Fingerprint(QueryOnly("pizzany")) == Fingerprint(QueryOnly("pizza").(location := Some(Str("ny"))))
  {
    FingerprintIsConcatenation(QueryOnly("pizzany"));
    FingerprintIsConcatenation(QueryOnly("pizza").(location := Some(Str("ny"))));
    assert "pizza" + "" + "ny" == "pizzany";
  }

  /** `options[:page] || 1`: a missing or `false` page means page 1. */
  function RequestedPage(o: Options): Value {
    if o.page.None? || o.page.value == Bool(false) then Int(1) else o.page.value
  }

  /** `page.to_s`, the key under which a page is recorded as cached. */
  function PageKey(page: Value): string {
    ToS(page)
  }

  /** With no page given, page "1" is the one looked up and recorded. */
  lemma DefaultPageKey(o: Options)
    requires o.page == None || o.page == Some(Bool(false))
    ensures PageKey(RequestedPage(o)) == "1"
  {
  }

  /** Distinct page numbers are cached under distinct keys, and a page given
      as a number shares its key with the same page given as a string. */
  lemma PageKeys(a: int, b: int)
    ensures PageKey(Int(a)) == PageKey(Int(b)) <==> a == b
    ensures PageKey(Int(a)) == PageKey(Str(IntToString(a)))
  {
    if PageKey(Int(a)) == PageKey(Int(b)) {
      IntToStringInjective(a, b);
    }
  }

  // ---------------------------------------------------------------------
  // Normalising a list reply (`coupons`)
  // ---------------------------------------------------------------------

  /** `.coupons.map(&:coupon)`: the records inside the reply's wrappers. */
  function Unwrap(es: seq<Entry>): seq<Coupon> {
    seq(|es|, i requires 0 <= i < |es| => es[i].coupon)
  }

  /** The list `coupons` stores after a fetch: `[]` for a missing reply, the
      unwrapped records otherwise, de-duplicated by title when `uniq` is set. */
  function Normalise(reply: Option<seq<Entry>>, uniq: bool): seq<Coupon> {
    var list := Unwrap(reply.GetOr([]));
    if uniq then UniqCoupons(list) else list
  }

  /** Without `uniq`, the stored list is the reply's records in order. */
  lemma NormalisePlain(reply: Option<seq<Entry>>)
    ensures |Normalise(reply, false)| == |reply.GetOr([])|
    ensures forall i :: 0 <= i < |reply.GetOr([])| ==> reply.value[i] == Entry(Normalise(reply, false)[i])
  {
  }

  /** With `uniq`, every stored record is one of the reply's records. */
  lemma NormaliseUniqFromReply(reply: Option<seq<Entry>>)
    ensures forall k :: 0 <= k < |Normalise(reply, true)| ==>
      reply.Some? && Entry(Normalise(reply, true)[k]) in reply.value
  {
    var list := Unwrap(reply.GetOr([]));
    var r := Normalise(reply, true);
    UniqCouponsKeepsLast(list);
    forall k | 0 <= k < |r| ensures reply.Some? && Entry(r[k]) in reply.value {
      var i :| 0 <= i < |list| && list[i] == r[k] && IsLastOfTitle(list, i);
      assert reply.value[i] == Entry(r[k]);
    }
  }

  /** A missing reply gives `[]`; every stored record comes from the reply;
      without `uniq` the stored list is the reply's records in order, and
      with it no title is stored twice and the list is `uniq_coupons` of them. */
  lemma NormaliseSpec(reply: Option<seq<Entry>>, uniq: bool)
    ensures reply == None ==> Normalise(reply, uniq) == []
    ensures forall k :: 0 <= k < |Normalise(reply, uniq)| ==>
      reply.Some? && Entry(Normalise(reply, uniq)[k]) in reply.value
    ensures !uniq ==> (|Normalise(reply, uniq)| == |reply.GetOr([])| &&
      forall i :: 0 <= i < |reply.GetOr([])| ==> reply.value[i] == Entry(Normalise(reply, uniq)[i]))
    ensures uniq ==> (NoDups(TitlesOf(Normalise(reply, uniq))) &&
      Normalise(reply, uniq) == UniqCoupons(Unwrap(reply.GetOr([]))))
  {
    if uniq {
      UniqCouponsTitles(Unwrap(reply.GetOr([])));
      NormaliseUniqFromReply(reply);
      if reply == None {
        assert |Normalise(reply, uniq)| == |TitlesOf(Normalise(reply, uniq))| <= 0;
      }
    } else {
      NormalisePlain(reply);
    }
  }

  /** The request `coupons` sends: the `uniq` flag is taken out first. */
  function ListRequest(opts: Options): Request {
    Request("coupons", opts.(uniq := None))
  }

  /** What the query check leaves of a stored list: all of it when the
      stored fingerprint equals the current one, nothing otherwise. */
  function Kept<T>(stored: string, current: string, s: seq<T>): seq<T> {
    if stored == current then s else []
  }

  // ---------------------------------------------------------------------
  // The client's cache state
  // ---------------------------------------------------------------------

  /** One API client. `resolveExpiry` is `update_by_expire_time`, which
      this model takes as given. The staleness checks
      `coupons_not_latest?` and `coupon_not_latest?` and the server's reply are
      passed to each call; `requests` records what was sent to the API. */
  class Client {
    const resolveExpiry: Options -> Options
    var lastCouponsQuery: string
    var totalCoupons: seq<Coupon>
    var cachedPages: seq<string>
    var rsqootCoupons: Option<seq<Coupon>>
    var rsqootCoupon: Option<Coupon>
    ghost var requests: seq<Request>

    /** The accumulated coupons and the cached page keys never repeat a value. */
    ghost predicate Valid()
      reads this
    {
      NoDups(totalCoupons) && NoDups(cachedPages)
    }

    /** A fresh client: nothing accumulated, nothing memoised, nothing sent. */
    constructor (resolveExpiry: Options -> Options)
      ensures Valid()
      ensures this.resolveExpiry == resolveExpiry
      ensures lastCouponsQuery == "" && totalCoupons == [] && cachedPages == []
      ensures rsqootCoupons == None && rsqootCoupon == None && requests == []
    {
      this.resolveExpiry := resolveExpiry;
      lastCouponsQuery := "";
      totalCoupons := [];
      cachedPages := [];
      rsqootCoupons := None;
      rsqootCoupon := None;
      requests := [];
    }

    /** `page_cached?`. */
    predicate PageCached(page: Value)
      reads this
    {
      PageKey(page) in cachedPages
    }

    /** `coupons`: fetch and normalise a list when the staleness check says
        the memo is out of date, otherwise return the memo untouched. */
    method Coupons(options: Options, notLatest: bool, reply: Option<seq<Entry>>) returns (r: Option<seq<Coupon>>)
      requires Valid()
      modifies this
      ensures Valid()
      ensures r == rsqootCoupons
      ensures lastCouponsQuery == old(lastCouponsQuery) && totalCoupons == old(totalCoupons)
      ensures cachedPages == old(cachedPages) && rsqootCoupon == old(rsqootCoupon)
      ensures notLatest ==> rsqootCoupons == Some(Normalise(reply, Truthy(resolveExpiry(options).uniq)))
      ensures notLatest ==> requests == old(requests) + [ListRequest(resolveExpiry(options))]
      ensures !notLatest ==> rsqootCoupons == old(rsqootCoupons) && requests == old(requests)
    {
      var opts := resolveExpiry(options);
      if notLatest {
        var uniq := Truthy(opts.uniq);
        opts := opts.(uniq := None);
        requests := requests + [Request("coupons", opts)];
        var got := Unwrap(reply.GetOr([]));
        if uniq {
          got := UniqCoupons(got);
        }
        rsqootCoupons := Some(got);
      }
      r := rsqootCoupons;
    }

    /** `coupon`: fetch one record by id when the staleness check says so
        (a missing reply stores `nil`), otherwise return the memo. */
    method CouponById(id: Value, options: Options, notLatest: bool, reply: Option<Entry>) returns (r: Option<Coupon>)
      requires Valid()
      modifies this
      ensures Valid()
      ensures r == rsqootCoupon
      ensures lastCouponsQuery == old(lastCouponsQuery) && totalCoupons == old(totalCoupons)
      ensures cachedPages == old(cachedPages) && rsqootCoupons == old(rsqootCoupons)
      ensures notLatest ==> rsqootCoupon == (if reply.Some? then Some(reply.value.coupon) else None)
      ensures notLatest ==> requests == old(requests) + [Request("coupons/" + ToS(id), resolveExpiry(options))]
      ensures !notLatest ==> rsqootCoupon == old(rsqootCoupon) && requests == old(requests)
    {
      var opts := resolveExpiry(options);
      if notLatest {
        requests := requests + [Request("coupons/" + ToS(id), opts)];
        rsqootCoupon := None;
        if reply.Some? {
          rsqootCoupon := Some(reply.value.coupon);
        }
      }
      r := rsqootCoupon;
    }

    /** `check_query_change`: a new fingerprint is stored and empties the
        accumulated coupons and the cached pages together; an unchanged one
        changes nothing. */
    method CheckQueryChange(options: Options)
      requires Valid()
      modifies this
      ensures Valid()
      ensures lastCouponsQuery == Fingerprint(resolveExpiry(options))
      ensures old(lastCouponsQuery) != lastCouponsQuery ==> totalCoupons == [] && cachedPages == []
      ensures old(lastCouponsQuery) == lastCouponsQuery ==>
        totalCoupons == old(totalCoupons) && cachedPages == old(cachedPages)
      ensures rsqootCoupons == old(rsqootCoupons) && rsqootCoupon == old(rsqootCoupon)
      ensures requests == old(requests)
    {
      var opts := resolveExpiry(options);
      var current := Fingerprint(opts);
      if lastCouponsQuery != current {
        lastCouponsQuery := current;
        totalCoupons := [];
        cachedPages := [];
      }
    }

    /** `total_sqoot_coupons`: after the query check, a page already cached
        returns the accumulated coupons without fetching; any other page adds
        what `coupons` gives to the accumulated coupons (keeping every record
        once) and records the page as cached. */
    method TotalCoupons(options: Options, notLatest: bool, reply: Option<seq<Entry>>) returns (out: Outcome)
      requires Valid()
      modifies this
      ensures Valid()
      ensures lastCouponsQuery == Fingerprint(resolveExpiry(options))
      ensures rsqootCoupon == old(rsqootCoupon)
      // a page cached for this query: nothing is fetched and nothing changes
      ensures PageKey(RequestedPage(options)) in Kept(old(lastCouponsQuery), lastCouponsQuery, old(cachedPages)) ==>
        && out == Accumulated(totalCoupons)
        && totalCoupons == Kept(old(lastCouponsQuery), lastCouponsQuery, old(totalCoupons))
        && cachedPages == Kept(old(lastCouponsQuery), lastCouponsQuery, old(cachedPages))
        && rsqootCoupons == old(rsqootCoupons) && requests == old(requests)
      // any other page goes through `coupons`
      ensures PageKey(RequestedPage(options)) !in Kept(old(lastCouponsQuery), lastCouponsQuery, old(cachedPages)) ==>
        && rsqootCoupons == (if notLatest then Some(Normalise(reply, Truthy(resolveExpiry(options).uniq)))
                             else old(rsqootCoupons))
        && requests == old(requests) + (if notLatest then [ListRequest(resolveExpiry(options))] else [])
      // ... which, when it still gives `nil`, raises before anything is added
      ensures PageKey(RequestedPage(options)) !in Kept(old(lastCouponsQuery), lastCouponsQuery, old(cachedPages))
              && rsqootCoupons == None ==>
        && out == TypeError
        && totalCoupons == Kept(old(lastCouponsQuery), lastCouponsQuery, old(totalCoupons))
        && cachedPages == Kept(old(lastCouponsQuery), lastCouponsQuery, old(cachedPages))
      // ... and otherwise extends the accumulated coupons and caches the page
      ensures PageKey(RequestedPage(options)) !in Kept(old(lastCouponsQuery), lastCouponsQuery, old(cachedPages))
              && rsqootCoupons != None ==>
        && out == Accumulated(totalCoupons)
        && totalCoupons == Uniq(Kept(old(lastCouponsQuery), lastCouponsQuery, old(totalCoupons)) + rsqootCoupons.value)
        && Kept(old(lastCouponsQuery), lastCouponsQuery, old(totalCoupons)) <= totalCoupons
        && cachedPages == Kept(old(lastCouponsQuery), lastCouponsQuery, old(cachedPages)) + [PageKey(RequestedPage(options))]
    {
      var page := RequestedPage(options);
      CheckQueryChange(options);
      if !PageCached(page) {
        var got := Coupons(options, notLatest, reply);
        if got.None? {
          return TypeError;
        }
        UniqExtends(totalCoupons, got.value);
        totalCoupons := Uniq(totalCoupons + got.value);
        var pages := cachedPages + [PageKey(page)];
        UniqOfNoDups(pages);
        cachedPages := Uniq(pages);
      }
      out := Accumulated(totalCoupons);
    }
  }

  /** The accumulated coupons are free of repeated records, not of repeated
      ids: two records with one id that differ elsewhere are both kept. */
  lemma AccumulatedIdsMayRepeat()
    ensures Uniq([Coupon(7, Some("A"), "x")] + [Coupon(7, Some("A"), "y")])
         == [Coupon(7, Some("A"), "x"), Coupon(7, Some("A"), "y")]
  {
    var s := [Coupon(7, Some("A"), "x")] + [Coupon(7, Some("A"), "y")];
    assert s[..1] == [Coupon(7, Some("A"), "x")] && s[..1][..0] == [];
  }

  // ---------------------------------------------------------------------
  // Call sequences
  // ---------------------------------------------------------------------

  /** Asking twice in a row for the same page of the same query sends at
      most one request. Once the first call has accumulated, the second
      returns the same coupons, sends nothing and changes nothing; `sent` is
      what had been sent after the first call. */
  method TotalCouponsRepeated(c: Client, options: Options,
                              notLatest1: bool, reply1: Option<seq<Entry>>,
                              notLatest2: bool, reply2: Option<seq<Entry>>)
    returns (first: Outcome, second: Outcome, ghost sent: seq<Request>)
    requires c.Valid()
    modifies c
    ensures c.Valid()
    ensures |c.requests| <= |old(c.requests)| + 1
    ensures first.Accumulated? ==>
      && second == first
      && c.requests == sent
      && c.totalCoupons == first.coupons
  {
    first := c.TotalCoupons(options, notLatest1, reply1);
    sent := c.requests;
    second := c.TotalCoupons(options, notLatest2, reply2);
  }

  /** An expiry resolver that never lets the page number reach the query
      fingerprint: resolving the same options with any other page gives the
      same fingerprint. */
  ghost predicate PageBlind(resolve: Options -> Options) {
    forall o: Options, p: Option<Value> :: Fingerprint(resolve(o.(page := p))) == Fingerprint(resolve(o))
  }

  /** A resolver that leaves the options as they are is page-blind, because
      the page never enters the fingerprint. */
  lemma IdentityIsPageBlind()
    ensures PageBlind(o => o)
  {
    forall o: Options, p: Option<Value> ensures Fingerprint(o.(page := p)) == Fingerprint(o) {
      FingerprintIgnoresPageAndUniq(o, p, o.uniq);
      assert o.(page := p).(page := o.page, uniq := o.uniq) == o;
    }
  }

  /** Asking for page `p` of the same query after another page keeps what
      the first call accumulated: the later total extends the earlier one,
      and both pages are then recorded as cached. */
  method TotalCouponsNextPage(c: Client, options: Options, p: Value,
                              notLatest1: bool, reply1: Option<seq<Entry>>,
                              notLatest2: bool, reply2: Option<seq<Entry>>)
    returns (first: Outcome, second: Outcome)
    requires c.Valid() && PageBlind(c.resolveExpiry) && p != Bool(false)
    modifies c
    ensures c.Valid()
    ensures first.Accumulated? && second.Accumulated? ==>
      && first.coupons <= second.coupons
      && PageKey(RequestedPage(options)) in c.cachedPages
      && PageKey(p) in c.cachedPages
  {
    var next := options.(page := Some(p));
    assert RequestedPage(next) == p;
    first := c.TotalCoupons(options, notLatest1, reply1);
    assert Fingerprint(c.resolveExpiry(next)) == c.lastCouponsQuery;
    second := c.TotalCoupons(next, notLatest2, reply2);
  }

  /** A call whose query fingerprint differs from the stored one starts from
      nothing: afterwards only its own page is cached and the accumulated
      coupons are exactly the distinct records `coupons` returned. */
  method TotalCouponsAfterQueryChange(c: Client, options: Options, notLatest: bool, reply: Option<seq<Entry>>)
    returns (out: Outcome)
    requires c.Valid()
    requires c.lastCouponsQuery != Fingerprint(c.resolveExpiry(options))
    modifies c
    ensures c.Valid()
    ensures out.Accumulated? ==>
      && c.cachedPages == [PageKey(RequestedPage(options))]
      && c.rsqootCoupons.Some?
      && out.coupons == c.totalCoupons == Uniq(c.rsqootCoupons.value)
  {
    ghost var stored, total, pages := c.lastCouponsQuery, c.totalCoupons, c.cachedPages;
    out := c.TotalCoupons(options, notLatest, reply);
    assert Kept(stored, c.lastCouponsQuery, total) == [] && Kept(stored, c.lastCouponsQuery, pages) == [];
    if out.Accumulated? {
      assert c.rsqootCoupons != None;
      assert [] + c.rsqootCoupons.value == c.rsqootCoupons.value;
    }
  }
}
