/**
 * The decisions of the batch-intake handler: the entry schema, the
 * ownership checks on products and locations, the vials a batch creates
 * (one per unit, in entry order) and the summary audit row. The writes
 * themselves are `Ledger.ReceiveIntake`.
 */
module IntakeRules {
  import opened LedgerTypes

  /** One entry of an intake batch, as posted; `expirationDate` is the posted date text. */
  datatype IntakeEntry = IntakeEntry(
    productId: Id,
    lotNumber: string,
    expirationDate: string,
    quantity: int,
    locationId: Option<Id>)

  const EmptyBatchMessage: string := "At least one vial is required"

  /** The first schema issue of one entry, fields taken in schema order. */
  function EntryIssue(e: IntakeEntry): (r: Option<string>)
    ensures r.None? <==> e.productId != "" && e.lotNumber != "" && e.expirationDate != "" && e.quantity >= 1
  {
    if e.productId == "" then Some("Product is required")
    else if e.lotNumber == "" then Some("Lot number is required")
    else if e.expirationDate == "" then Some("Expiration date is required")
    else if e.quantity < 1 then Some("Quantity must be at least 1")
    else None
  }

  /** Every entry before `k` passes the schema. */
  predicate CleanBefore(entries: seq<IntakeEntry>, k: int)
    requires 0 <= k <= |entries|
  {
    forall j :: 0 <= j < k ==> EntryIssue(entries[j]).None?
  }

  /** The message of the first entry that has an issue (zod's `issues[0]`). */
  function FirstEntryIssue(entries: seq<IntakeEntry>): (r: Option<string>)
    ensures r.None? <==> forall k :: 0 <= k < |entries| ==> EntryIssue(entries[k]).None?
    ensures r.Some? ==> exists k :: 0 <= k < |entries| && EntryIssue(entries[k]) == r && CleanBefore(entries, k)
    decreases |entries|
  {
    if |entries| == 0 then None
    else if EntryIssue(entries[0]).Some? then
      assert CleanBefore(entries, 0);
      EntryIssue(entries[0])
    else
      var r := FirstEntryIssue(entries[1..]);
      assert forall k :: 0 <= k < |entries| - 1 ==> entries[1..][k] == entries[k + 1];
      if r.Some? then
        var k :| 0 <= k < |entries| - 1 && EntryIssue(entries[1..][k]) == r && CleanBefore(entries[1..], k);
        assert CleanBefore(entries, k + 1);
        r
      else r
  }

  /** The intake schema: a non-empty list of well-formed entries. */
  function ValidateIntake(entries: seq<IntakeEntry>): (r: Option<Error>)
    ensures r.None? <==> |entries| > 0 && forall k :: 0 <= k < |entries| ==> EntryIssue(entries[k]).None?
    ensures r.Some? ==> r.value.Validation?
    ensures |entries| == 0 ==> r == Some(Validation(EmptyBatchMessage))
    ensures |entries| > 0 && r.Some? ==> FirstEntryIssue(entries).Some? && r == Some(Validation(FirstEntryIssue(entries).value))
  {
    if |entries| == 0 then Some(Validation(EmptyBatchMessage))
    else match FirstEntryIssue(entries)
      case Some(message) => Some(Validation(message))
      case None => None
  }

  predicate ProductOwned(products: seq<Product>, id: Id, account: Id) {
    ProductById(products, id).Some? && ProductById(products, id).value.accountId == account
  }

  /** Every product id named by the batch belongs to the account. */
  predicate AllProductsOwned(entries: seq<IntakeEntry>, products: seq<Product>, account: Id) {
    forall k :: 0 <= k < |entries| ==> ProductOwned(products, entries[k].productId, account)
  }

  /** `findMany({ where: { id, accountId } })` finds a row. */
  predicate FoundInAccount(products: seq<Product>, id: Id, account: Id) {
    exists i :: 0 <= i < |products| && products[i].id == id && products[i].accountId == account
  }

  /**
   * With unique ids, the first-row lookup agrees with the store's
   * account-filtered search: a product is owned exactly when some catalog
   * row has that id in that account.
   */
  lemma {:induction false} OwnedIffFoundInAccount(products: seq<Product>, id: Id, account: Id)
    requires UniqueIds(products)
    ensures ProductOwned(products, id, account) <==> FoundInAccount(products, id, account)
  {
    var r := ProductById(products, id);
    if ProductOwned(products, id, account) {
      var i :| 0 <= i < |products| && products[i] == r.value;
      assert products[i].id == id && products[i].accountId == account;
    }
    if i :| 0 <= i < |products| && products[i].id == id && products[i].accountId == account {
      assert products[i] in products;
      var j :| 0 <= j < |products| && products[j] == r.value;
      assert i == j;
    }
  }

  /**
   * A batch passes the product check exactly when every product id it names
   * has a catalog row in the account, which is what comparing the number of
   * rows found with the number of distinct ids decides when ids are unique.
   */
  lemma AllOwnedIffFoundInAccount(entries: seq<IntakeEntry>, products: seq<Product>, account: Id)
    requires UniqueIds(products)
    ensures AllProductsOwned(entries, products, account) <==>
      forall k :: 0 <= k < |entries| ==> FoundInAccount(products, entries[k].productId, account)
  {
    forall k | 0 <= k < |entries| {
      OwnedIffFoundInAccount(products, entries[k].productId, account);
    }
  }

  predicate LocationOwned(locations: map<Id, Location>, id: Id, account: Id) {
    id in locations && locations[id].accountId == account
  }

  /** Every location id the batch names (empty ones aside) belongs to the account. */
  predicate AllLocationsOwned(entries: seq<IntakeEntry>, locations: map<Id, Location>, account: Id) {
    forall k :: 0 <= k < |entries| && Present(entries[k].locationId) ==>
      LocationOwned(locations, entries[k].locationId.value, account)
  }

  /** How many times the per-unit loop runs for an entry. */
  function Copies(e: IntakeEntry): nat {
    if e.quantity > 0 then e.quantity as nat else 0
  }

  /** The total number of vials a batch creates. */
  function TotalCopies(entries: seq<IntakeEntry>): nat
    decreases |entries|
  {
    if |entries| == 0 then 0
    else TotalCopies(entries[..|entries| - 1]) + Copies(entries[|entries| - 1])
  }

  /** The vial row created for one unit of an entry. */
  function NewVial(e: IntakeEntry, product: Product, id: VialId, account: Id,
                   dateOf: string -> int, now: int): Vial
  {
    Vial(id, account, e.productId, e.lotNumber, dateOf(e.expirationDate), OrNull(e.locationId),
         product.unitsPerVial, product.unitsPerVial, Active, None, now)
  }

  /** The product row an entry of an accepted batch refers to. */
  function EntryProduct(e: IntakeEntry, products: seq<Product>): Product
    requires ProductById(products, e.productId).Some?
  {
    ProductById(products, e.productId).value
  }

  predicate ProductsExist(entries: seq<IntakeEntry>, products: seq<Product>) {
    forall k :: 0 <= k < |entries| ==> ProductById(products, entries[k].productId).Some?
  }

  /** The `count` vials created for one entry, numbered from `firstId`. */
  function Units(e: IntakeEntry, product: Product, firstId: VialId, count: nat, account: Id,
                 dateOf: string -> int, now: int): seq<Vial>
  {
    seq(count, j requires 0 <= j < count => NewVial(e, product, firstId + j, account, dateOf, now))
  }

  /** The vials a batch creates, entry after entry, numbered consecutively from `firstId`. */
  function Created(entries: seq<IntakeEntry>, products: seq<Product>, firstId: VialId, account: Id,
                   dateOf: string -> int, now: int): seq<Vial>
    requires ProductsExist(entries, products)
    decreases |entries|
  {
    if |entries| == 0 then []
    else
      var prev := Created(entries[..|entries| - 1], products, firstId, account, dateOf, now);
      var e := entries[|entries| - 1];
      prev + Units(e, EntryProduct(e, products), firstId + |prev|, Copies(e), account, dateOf, now)
  }

  /** A vial as intake creates it: ACTIVE, undepleted, stamped now, with the full fill of its product. */
  predicate FreshFromIntake(v: Vial, products: seq<Product>, id: VialId, account: Id, now: int) {
    && v.id == id
    && v.accountId == account
    && v.status == Active
    && v.depletedDate == None
    && v.createdAt == now
    && ProductById(products, v.productId).Some?
    && v.initialQuantity == v.remainingQuantity == ProductById(products, v.productId).value.unitsPerVial
  }

  lemma InitProductsExist(entries: seq<IntakeEntry>, products: seq<Product>)
    requires |entries| > 0 && ProductsExist(entries, products)
    ensures ProductsExist(entries[..|entries| - 1], products)
  {
    var init := entries[..|entries| - 1];
    assert forall k :: 0 <= k < |init| ==> init[k] == entries[k];
  }

  /**
   * A batch creates exactly as many vials as its quantities add up to,
   * numbered consecutively, all ACTIVE in the caller's account with a full
   * fill of their product.
   */
  lemma {:induction false} CreatedShape(entries: seq<IntakeEntry>, products: seq<Product>, firstId: VialId,
                                        account: Id, dateOf: string -> int, now: int)
    requires ProductsExist(entries, products)
    ensures var c := Created(entries, products, firstId, account, dateOf, now);
      && |c| == TotalCopies(entries)
      && forall i :: 0 <= i < |c| ==> FreshFromIntake(c[i], products, firstId + i, account, now)
    decreases |entries|
  {
    if |entries| > 0 {
      var init := entries[..|entries| - 1];
      InitProductsExist(entries, products);
      CreatedShape(init, products, firstId, account, dateOf, now);
      var prev := Created(init, products, firstId, account, dateOf, now);
      var e := entries[|entries| - 1];
      var p := EntryProduct(e, products);
      var units := Units(e, p, firstId + |prev|, Copies(e), account, dateOf, now);
      var c := Created(entries, products, firstId, account, dateOf, now);
      assert c == prev + units;
      forall i | 0 <= i < |c| ensures FreshFromIntake(c[i], products, firstId + i, account, now) {
        if i < |prev| {
          assert c[i] == prev[i];
        } else {
          var j := i - |prev|;
          assert c[i] == units[j] == NewVial(e, p, firstId + |prev| + j, account, dateOf, now);
          assert ProductById(products, c[i].productId) == Some(p);
        }
      }
    }
  }

  /**
   * Entry order: unit `u` of entry `k` is the vial at position
   * `TotalCopies(entries[..k]) + u`, and it copies that entry's product,
   * lot, expiry and location.
   */
  lemma {:induction false} CreatedInEntryOrder(entries: seq<IntakeEntry>, products: seq<Product>,
                                               firstId: VialId, account: Id, dateOf: string -> int,
                                               now: int, k: nat, u: nat)
    requires ProductsExist(entries, products)
    requires k < |entries| && u < Copies(entries[k])
    ensures var c := Created(entries, products, firstId, account, dateOf, now);
      var pos := TotalCopies(entries[..k]) + u;
      && pos < |c|
      && c[pos] == NewVial(entries[k], EntryProduct(entries[k], products), firstId + pos, account, dateOf, now)
    decreases |entries|
  {
    var init := entries[..|entries| - 1];
    InitProductsExist(entries, products);
    CreatedShape(init, products, firstId, account, dateOf, now);
    var prev := Created(init, products, firstId, account, dateOf, now);
    var e := entries[|entries| - 1];
    var p := EntryProduct(e, products);
    var units := Units(e, p, firstId + |prev|, Copies(e), account, dateOf, now);
    var c := Created(entries, products, firstId, account, dateOf, now);
    assert c == prev + units;
    var pos := TotalCopies(entries[..k]) + u;
    if k == |entries| - 1 {
      assert entries[..k] == init;
      assert c[pos] == units[u];
    } else {
      CreatedInEntryOrder(init, products, firstId, account, dateOf, now, k, u);
      assert init[..k] == entries[..k];
      assert init[k] == entries[k];
      TotalCopiesPrefix(init, k);
      assert c[pos] == prev[pos];
    }
  }

  /** The vials of the entries before `k` come before the last entry's. */
  lemma {:induction false} TotalCopiesPrefix(entries: seq<IntakeEntry>, k: nat)
    requires k < |entries|
    ensures TotalCopies(entries[..k]) + Copies(entries[k]) <= TotalCopies(entries)
    decreases |entries|
  {
    var init := entries[..|entries| - 1];
    if k < |entries| - 1 {
      TotalCopiesPrefix(init, k);
      assert init[..k] == entries[..k];
    } else {
      assert entries[..k] == init;
    }
  }

  /** A vial fresh from intake satisfies the ledger invariant, strictly inside `0 < remaining = initial`. */
  lemma NewVialWellFormed(e: IntakeEntry, product: Product, id: VialId, account: Id,
                          dateOf: string -> int, now: int)
    requires product.unitsPerVial >= 1.0
    ensures var v := NewVial(e, product, id, account, dateOf, now);
      WellFormed(v) && 0.0 < v.remainingQuantity == v.initialQuantity
  {
  }

  /** The entries as echoed into the audit metadata, in order. */
  function Summaries(entries: seq<IntakeEntry>): (r: seq<EntrySummary>)
    ensures |r| == |entries|
    ensures forall k :: 0 <= k < |entries| ==>
      r[k] == EntrySummary(entries[k].productId, entries[k].lotNumber, entries[k].quantity)
  {
    seq(|entries|, k requires 0 <= k < |entries| =>
      EntrySummary(entries[k].productId, entries[k].lotNumber, entries[k].quantity))
  }

  /** The one VIAL_RECEIVED audit row of a batch. */
  function IntakeAudit(account: Id, user: Id, entries: seq<IntakeEntry>, created: seq<Vial>, now: int): AuditLog {
    AuditLog(account, Some(user), VialReceived, User, "VIAL",
             if |created| > 0 then Some(created[0].id) else None,
             IntakeDetails(|created|, Summaries(entries)),
             now)
  }
}
