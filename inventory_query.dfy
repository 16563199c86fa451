/**
 * The inventory listing: the filter built from the request's parameters,
 * the listing order (expiry first, newest first among equal expiries),
 * and the per-product summary of ACTIVE vials.
 */
module InventoryQuery {
  import opened LedgerTypes
  import opened Text

  const MsPerDay: int := 24 * 60 * 60 * 1000

  /**
   * The query parameters. An absent or empty text parameter is ignored;
   * `expiringDays` is the parsed `expiring` parameter.
   */
  datatype InventoryParams = InventoryParams(
    status: Option<VialStatus>,
    productId: Option<Id>,
    locationId: Option<Id>,
    search: Option<string>,
    expiringDays: Option<int>)

  /** An open-closed time window `(after, upTo]`. */
  datatype Window = Window(after: int, upTo: int)

  /** The store's `where` object: every present field is one more conjunct. */
  datatype Where = Where(
    accountId: Id,
    status: Option<VialStatus>,
    productId: Option<Id>,
    locationId: Option<Id>,
    lotContains: Option<string>,
    expiration: Option<Window>)

  /** What the store's `where` semantics keep. */
  predicate Satisfies(v: Vial, w: Where) {
    && v.accountId == w.accountId
    && (w.status.Some? ==> v.status == w.status.value)
    && (w.productId.Some? ==> v.productId == w.productId.value)
    && (w.locationId.Some? ==> v.locationId == w.locationId)
    && (w.lotContains.Some? ==> ContainsInsensitive(v.lotNumber, w.lotContains.value))
    && (w.expiration.Some? ==>
          w.expiration.value.after < v.expirationDate <= w.expiration.value.upTo)
  }

  /**
   * Which vials a listing request asks for, parameter by parameter: the
   * caller's account always; the expiring window, when given, keeps ACTIVE
   * vials expiring within that many days and overrides the status
   * parameter; otherwise the status parameter, when given, by equality;
   * product and location by equality when given; the search text as a
   * case-insensitive substring of the lot number.
   */
  predicate Matches(v: Vial, account: Id, p: InventoryParams, now: int) {
    && v.accountId == account
    && (match p.expiringDays
        case Some(d) => v.status == Active && now < v.expirationDate <= now + d * MsPerDay
        case None => p.status.Some? ==> v.status == p.status.value)
    && (Present(p.productId) ==> v.productId == p.productId.value)
    && (Present(p.locationId) ==> v.locationId == Some(p.locationId.value))
    && (Present(p.search) ==> ContainsInsensitive(v.lotNumber, p.search.value))
  }

  /** The handler builds the `where` object one field at a time. */
  method BuildWhere(account: Id, p: InventoryParams, now: int) returns (w: Where)
    ensures w.accountId == account
    ensures forall v :: Satisfies(v, w) <==> Matches(v, account, p, now)
  {
    w := Where(account, None, None, None, None, None);
    if p.status.Some? {
      w := w.(status := p.status);
    }
    if Present(p.productId) {
      w := w.(productId := p.productId);
    }
    if Present(p.locationId) {
      w := w.(locationId := p.locationId);
    }
    if Present(p.search) {
      w := w.(lotContains := p.search);
    }
    if p.expiringDays.Some? {
      var futureDate := now + p.expiringDays.value * MsPerDay;
      w := w.(expiration := Some(Window(now, futureDate)));
      w := w.(status := Some(Active));
    }
  }

  /** The vials the `where` keeps, each as often as the table holds it. */
  function Filter(vials: seq<Vial>, w: Where): (r: seq<Vial>)
    ensures forall v :: multiset(r)[v] == if Satisfies(v, w) then multiset(vials)[v] else 0
    decreases |vials|
  {
    if |vials| == 0 then []
    else
      var rest := Filter(vials[1..], w);
      assert vials == [vials[0]] + vials[1..];
      (if Satisfies(vials[0], w) then [vials[0]] else []) + rest
  }

  /** `orderBy: [{ expirationDate: "asc" }, { createdAt: "desc" }]`. */
  predicate ListedBefore(a: Vial, b: Vial) {
    a.expirationDate < b.expirationDate
    || (a.expirationDate == b.expirationDate && a.createdAt >= b.createdAt)
  }

  predicate Listed(s: seq<Vial>) {
    forall i, j :: 0 <= i < j < |s| ==> ListedBefore(s[i], s[j])
  }

  /** Puts `v` into a listed sequence at its place. */
  function Insert(v: Vial, s: seq<Vial>): (r: seq<Vial>)
    requires Listed(s)
    ensures Listed(r)
    ensures multiset(r) == multiset(s) + multiset{v}
    decreases |s|
  {
    if |s| == 0 then [v]
    else if ListedBefore(v, s[0]) then [v] + s
    else
      var rest := Insert(v, s[1..]);
      assert s == [s[0]] + s[1..];
      HeadPrecedesInserted(v, s, rest);
      [s[0]] + rest
  }

  /** When `v` goes after the head of a listed sequence, the head precedes every row of the insertion into the tail. */
  lemma HeadPrecedesInserted(v: Vial, s: seq<Vial>, rest: seq<Vial>)
    requires Listed(s) && |s| > 0 && !ListedBefore(v, s[0])
    requires multiset(rest) == multiset(s[1..]) + multiset{v}
    ensures forall j :: 0 <= j < |rest| ==> ListedBefore(s[0], rest[j])
  {
    forall j | 0 <= j < |rest| ensures ListedBefore(s[0], rest[j]) {
      var x := rest[j];
      assert x in multiset(rest);
      if x != v {
        assert x in multiset(s[1..]);
        var i :| 0 <= i < |s[1..]| && s[1..][i] == x;
        assert s[i + 1] == x;
      }
    }
  }

  /** The listing order applied to a sequence of vials. */
  function SortListing(s: seq<Vial>): (r: seq<Vial>)
    ensures Listed(r)
    ensures multiset(r) == multiset(s)
    decreases |s|
  {
    if |s| == 0 then []
    else
      assert s == [s[0]] + s[1..];
      Insert(s[0], SortListing(s[1..]))
  }

  /** One `groupBy` bucket: a product's number of ACTIVE vials and their summed remaining quantity. */
  datatype Group = Group(productId: Id, count: nat, units: real)

  /** The vials the summary counts: the account's ACTIVE vials of one product. */
  predicate CountedFor(v: Vial, account: Id, productId: Id) {
    v.accountId == account && v.status == Active && v.productId == productId
  }

  function FindGroup(groups: seq<Group>, productId: Id): (r: Option<Group>)
    ensures r.Some? ==> r.value.productId == productId
    decreases |groups|
  {
    if |groups| == 0 then None
    else if groups[0].productId == productId then Some(groups[0])
    else FindGroup(groups[1..], productId)
  }

  /** The bucket of `v`'s product after `v` is counted into it. */
  function Bump(g: Option<Group>, v: Vial): Group {
    match g
    case None => Group(v.productId, 1, v.remainingQuantity)
    case Some(g) => Group(g.productId, g.count + 1, g.units + v.remainingQuantity)
  }

  /** Counts `v` into the first bucket of its product, or opens a new bucket. */
  function AddToGroups(groups: seq<Group>, v: Vial): seq<Group>
    decreases |groups|
  {
    if |groups| == 0 then [Bump(None, v)]
    else if groups[0].productId == v.productId then [Bump(Some(groups[0]), v)] + groups[1..]
    else [groups[0]] + AddToGroups(groups[1..], v)
  }

  /** `groupBy(["productId"])` over the account's ACTIVE vials, with `_count` and `_sum`. */
  function GroupActive(vials: seq<Vial>, account: Id): seq<Group>
    decreases |vials|
  {
    if |vials| == 0 then []
    else
      var groups := GroupActive(vials[..|vials| - 1], account);
      var v := vials[|vials| - 1];
      if v.accountId == account && v.status == Active then AddToGroups(groups, v) else groups
  }

  /** The number of the account's ACTIVE vials of a product. */
  function ActiveCount(vials: seq<Vial>, account: Id, productId: Id): nat
    decreases |vials|
  {
    if |vials| == 0 then 0
    else ActiveCount(vials[..|vials| - 1], account, productId)
         + (if CountedFor(vials[|vials| - 1], account, productId) then 1 else 0)
  }

  /** The summed remaining quantity of the account's ACTIVE vials of a product. */
  function ActiveUnits(vials: seq<Vial>, account: Id, productId: Id): real
    decreases |vials|
  {
    if |vials| == 0 then 0.0
    else ActiveUnits(vials[..|vials| - 1], account, productId)
         + (if CountedFor(vials[|vials| - 1], account, productId) then vials[|vials| - 1].remainingQuantity else 0.0)
  }

  lemma {:induction false} FindAfterAdd(groups: seq<Group>, v: Vial, productId: Id)
    ensures FindGroup(AddToGroups(groups, v), productId) ==
      if productId == v.productId then Some(Bump(FindGroup(groups, productId), v))
      else FindGroup(groups, productId)
    decreases |groups|
  {
    if |groups| > 0 && groups[0].productId != v.productId {
      FindAfterAdd(groups[1..], v, productId);
      assert ([groups[0]] + AddToGroups(groups[1..], v))[1..] == AddToGroups(groups[1..], v);
    }
  }

  /**
   * The store's grouping agrees with direct counting: a product has a
   * bucket exactly when it has ACTIVE vials in the account, and the bucket
   * holds their number and their summed remaining quantity.
   */
  lemma {:induction false} GroupsAgree(vials: seq<Vial>, account: Id, productId: Id)
    ensures FindGroup(GroupActive(vials, account), productId) ==
      if ActiveCount(vials, account, productId) > 0
      then Some(Group(productId, ActiveCount(vials, account, productId), ActiveUnits(vials, account, productId)))
      else None
    decreases |vials|
  {
    if |vials| > 0 {
      var init := vials[..|vials| - 1];
      var v := vials[|vials| - 1];
      GroupsAgree(init, account, productId);
      ActiveUnitsBounds(init, account, productId);
      if v.accountId == account && v.status == Active {
        FindAfterAdd(GroupActive(init, account), v, productId);
      }
    }
  }

  /** `GroupsAgree` and `ActiveUnitsBounds` for every product at once. */
  lemma GroupsAgreeEverywhere(vials: seq<Vial>, account: Id)
    ensures forall pid ::
      && FindGroup(GroupActive(vials, account), pid) ==
           (if ActiveCount(vials, account, pid) > 0
            then Some(Group(pid, ActiveCount(vials, account, pid), ActiveUnits(vials, account, pid)))
            else None)
      && (ActiveCount(vials, account, pid) == 0 ==> ActiveUnits(vials, account, pid) == 0.0)
  {
    forall pid
      ensures FindGroup(GroupActive(vials, account), pid) ==
           (if ActiveCount(vials, account, pid) > 0
            then Some(Group(pid, ActiveCount(vials, account, pid), ActiveUnits(vials, account, pid)))
            else None)
      ensures ActiveCount(vials, account, pid) == 0 ==> ActiveUnits(vials, account, pid) == 0.0
    {
      GroupsAgree(vials, account, pid);
      ActiveUnitsBounds(vials, account, pid);
    }
  }

  datatype SummaryRow = SummaryRow(product: Product, activeVials: nat, totalUnits: real)

  /** The account's products flagged active, in table order. */
  function ActiveProducts(products: seq<Product>, account: Id): (r: seq<Product>)
    ensures forall p :: p in r <==> p in products && p.accountId == account && p.active
    decreases |products|
  {
    if |products| == 0 then []
    else
      (if products[0].accountId == account && products[0].active then [products[0]] else [])
      + ActiveProducts(products[1..], account)
  }

  /** The summary keeps each active product of the account as often as the catalog holds it, and nothing else. */
  lemma {:induction false} ActiveProductsFilter(products: seq<Product>, account: Id)
    ensures var r := ActiveProducts(products, account);
      forall p :: multiset(r)[p] == if p.accountId == account && p.active then multiset(products)[p] else 0
    decreases |products|
  {
    if |products| > 0 {
      ActiveProductsFilter(products[1..], account);
      assert products == [products[0]] + products[1..];
    }
  }

  /** A catalog with distinct ids yields summary products with distinct ids. */
  lemma {:induction false} ActiveProductsUnique(products: seq<Product>, account: Id)
    requires UniqueIds(products)
    ensures UniqueIds(ActiveProducts(products, account))
    decreases |products|
  {
    if |products| > 0 {
      var tail := products[1..];
      assert UniqueIds(tail) by {
        assert forall i :: 0 <= i < |tail| ==> tail[i] == products[i + 1];
      }
      ActiveProductsUnique(tail, account);
      var rest := ActiveProducts(tail, account);
      forall q | q in rest ensures q.id != products[0].id {
        assert q in tail;
        var k :| 0 <= k < |tail| && tail[k] == q;
        assert products[k + 1] == q;
      }
    }
  }

  /** A summary row from a product and its bucket, zero when there is none. */
  function StatsRow(product: Product, g: Option<Group>): SummaryRow {
    match g
    case Some(g) => SummaryRow(product, g.count, g.units)
    case None => SummaryRow(product, 0, 0.0)
  }

  /**
   * The per-product summary: one row per active product of the account,
   * holding the count of its ACTIVE vials and their summed remaining
   * quantity. It depends on the account alone, not on the listing filters.
   */
  function Summary(vials: seq<Vial>, products: seq<Product>, account: Id): (r: seq<SummaryRow>)
    ensures |r| == |ActiveProducts(products, account)|
    ensures forall i :: 0 <= i < |r| ==>
      && r[i].product == ActiveProducts(products, account)[i]
      && r[i].activeVials == ActiveCount(vials, account, r[i].product.id)
      && r[i].totalUnits == ActiveUnits(vials, account, r[i].product.id)
    ensures UniqueIds(products) ==>
      forall i, j :: 0 <= i < j < |r| ==> r[i].product.id != r[j].product.id
  {
    var groups := GroupActive(vials, account);
    var ps := ActiveProducts(products, account);
    GroupsAgreeEverywhere(vials, account);
    assert UniqueIds(products) ==> UniqueIds(ps) by {
      if UniqueIds(products) {
        ActiveProductsUnique(products, account);
      }
    }
    seq(|ps|, i requires 0 <= i < |ps| => StatsRow(ps[i], FindGroup(groups, ps[i].id)))
  }

  /**
   * A product without ACTIVE vials shows zero units, and when every vial
   * keeps the ledger invariant the units shown are never negative.
   */
  lemma {:induction false} ActiveUnitsBounds(vials: seq<Vial>, account: Id, productId: Id)
    ensures ActiveCount(vials, account, productId) == 0 ==> ActiveUnits(vials, account, productId) == 0.0
    ensures (forall i :: 0 <= i < |vials| ==> WellFormed(vials[i])) ==> ActiveUnits(vials, account, productId) >= 0.0
    decreases |vials|
  {
    if |vials| > 0 {
      ActiveUnitsBounds(vials[..|vials| - 1], account, productId);
    }
  }

  /**
   * The inventory listing handler: the vials the request asks for, in
   * listing order, together with the per-product summary.
   */
  method ListInventory(vials: seq<Vial>, products: seq<Product>, account: Id, p: InventoryParams, now: int)
    returns (rows: seq<Vial>, summary: seq<SummaryRow>)
    ensures forall v :: multiset(rows)[v] == if Matches(v, account, p, now) then multiset(vials)[v] else 0
    ensures forall v :: v in rows <==> v in vials && Matches(v, account, p, now)
    ensures Listed(rows)
    ensures summary == Summary(vials, products, account)
  {
    var w := BuildWhere(account, p, now);
    rows := SortListing(Filter(vials, w));
    summary := Summary(vials, products, account);
    assert forall v :: v in rows <==> v in multiset(rows);
    assert forall v :: v in vials <==> v in multiset(vials);
  }
}
