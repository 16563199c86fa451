/**
 * The vial ledger: the vial table, the append-only usage and audit logs,
 * and the catalog tables they refer to. Its two mutating operations are
 * the usage-recording handler and the batch-intake handler; each runs its
 * checks and then applies all of its writes or none.
 */
module VialLedger {
  import opened LedgerTypes
  import opened UsageRules
  import opened IntakeRules

  class Ledger {
    var vials: seq<Vial>
    var nextVialId: nat
    var usageLogs: seq<UsageLog>
    var auditLogs: seq<AuditLog>
    // Catalog tables: written by other handlers, only read here.
    var products: seq<Product>
    var locations: map<Id, Location>
    var providers: map<Id, Provider>

    /**
     * The ledger invariant: every vial keeps `0 <= remaining <= initial`,
     * is DEPLETED exactly when empty and refers to a catalog product; vial
     * ids are increasing along the table and below the next id handed out;
     * every product's nominal fill is at least 1, and no two products
     * share an id.
     */
    ghost predicate Valid()
      reads this
    {
      && (forall i :: 0 <= i < |vials| ==>
            && WellFormed(vials[i])
            && vials[i].id < nextVialId
            && ProductById(products, vials[i].productId).Some?)
      && (forall i, j :: 0 <= i < j < |vials| ==> vials[i].id < vials[j].id)
      && (forall p :: p in products ==> p.unitsPerVial >= 1.0)
      && UniqueIds(products)
    }

    /** A ledger with no vials and no log rows over the given catalog. */
    constructor (products: seq<Product>, locations: map<Id, Location>, providers: map<Id, Provider>)
      requires forall p :: p in products ==> p.unitsPerVial >= 1.0
      requires UniqueIds(products)
      ensures Valid()
      ensures vials == [] && usageLogs == [] && auditLogs == [] && nextVialId == 0
      ensures this.products == products && this.locations == locations && this.providers == providers
    {
      vials, nextVialId, usageLogs, auditLogs := [], 0, [], [];
      this.products, this.locations, this.providers := products, locations, providers;
    }

    /**
     * Records one usage against a vial. A rejected request writes nothing;
     * an accepted one appends one usage row, updates only the target vial
     * (remaining, status, depletion date) and appends one USAGE_LOGGED
     * audit row that names the vial and its new remaining quantity.
     */
    method RecordUsage(account: Id, user: Id, req: UsageRequest, now: int)
      returns (result: Result<UsageLog, Error>)
      requires Valid()
      modifies this`vials, this`usageLogs, this`auditLogs
      ensures Valid()
      ensures var check := CheckUsage(old(vials), products, providers, account, req);
        check.Err? ==>
          && result == Err(check.error)
          && vials == old(vials) && usageLogs == old(usageLogs) && auditLogs == old(auditLogs)
      ensures var check := CheckUsage(old(vials), products, providers, account, req);
        check.Ok? ==>
          var i := check.value;
          var before := old(vials)[i];
          && result == Ok(UsageRow(account, user, req, now))
          && |vials| == |old(vials)|
          && vials == old(vials)[i := ApplyUsage(before, req.quantityUsed, now)]
          && vials[i].remainingQuantity == before.remainingQuantity - req.quantityUsed
          && (vials[i].status == Depleted <==> req.quantityUsed == before.remainingQuantity)
          && usageLogs == old(usageLogs) + [result.value]
          && auditLogs == old(auditLogs)
               + [UsageAudit(account, user, req, before, ProductById(products, before.productId).value, now)]
          && auditLogs[|auditLogs| - 1].action == UsageLogged
          && auditLogs[|auditLogs| - 1].entityId == Some(req.vialId)
          && auditLogs[|auditLogs| - 1].metadata.remainingQuantity == vials[i].remainingQuantity
    {
      var check := CheckUsage(vials, products, providers, account, req);
      if check.Err? {
        return Err(check.error);
      }
      var i := check.value;
      var vial := vials[i];
      var product := ProductById(products, vial.productId).value;
      var log := UsageRow(account, user, req, now);
      usageLogs := usageLogs + [log];
      vials := vials[i := ApplyUsage(vial, req.quantityUsed, now)];
      auditLogs := auditLogs + [UsageAudit(account, user, req, vial, product, now)];
      result := Ok(log);
    }

    /**
     * Receives a batch of vials. A batch that fails the schema or names a
     * product or location outside the account writes nothing; an accepted
     * batch appends, entry by entry, one ACTIVE vial per unit with a full
     * fill of its product, then one VIAL_RECEIVED audit row, and changes
     * no existing vial.
     */
    method ReceiveIntake(account: Id, user: Id, entries: seq<IntakeEntry>, dateOf: string -> int, now: int)
      returns (result: Result<seq<Vial>, Error>)
      requires Valid()
      modifies this`vials, this`nextVialId, this`auditLogs
      ensures Valid()
      ensures ValidateIntake(entries).Some? ==>
        && result == Err(ValidateIntake(entries).value)
        && vials == old(vials) && nextVialId == old(nextVialId) && auditLogs == old(auditLogs)
      ensures ValidateIntake(entries).None? && !AllProductsOwned(entries, products, account) ==>
        && result == Err(InvalidProduct)
        && (exists k :: 0 <= k < |entries| && !FoundInAccount(products, entries[k].productId, account))
        && vials == old(vials) && nextVialId == old(nextVialId) && auditLogs == old(auditLogs)
      ensures ValidateIntake(entries).None? && AllProductsOwned(entries, products, account)
              && !AllLocationsOwned(entries, locations, account) ==>
        && result == Err(InvalidLocation)
        && vials == old(vials) && nextVialId == old(nextVialId) && auditLogs == old(auditLogs)
      ensures ValidateIntake(entries).None? && AllProductsOwned(entries, products, account)
              && AllLocationsOwned(entries, locations, account) ==>
        && ProductsExist(entries, products)
        && (forall k :: 0 <= k < |entries| ==> FoundInAccount(products, entries[k].productId, account))
        && var created := Created(entries, products, old(nextVialId), account, dateOf, now);
        && result == Ok(created)
        && |created| == TotalCopies(entries) > 0
        && vials == old(vials) + created
        && nextVialId == old(nextVialId) + |created|
        && auditLogs == old(auditLogs) + [IntakeAudit(account, user, entries, created, now)]
        && auditLogs[|auditLogs| - 1].action == VialReceived
        && auditLogs[|auditLogs| - 1].entityId == Some(created[0].id)
        && auditLogs[|auditLogs| - 1].metadata.vialsCreated == TotalCopies(entries)
    {
      var invalid := ValidateIntake(entries);
      if invalid.Some? {
        return Err(invalid.value);
      }
      AllOwnedIffFoundInAccount(entries, products, account);
      if !AllProductsOwned(entries, products, account) {
        return Err(InvalidProduct);
      }
      if !AllLocationsOwned(entries, locations, account) {
        return Err(InvalidLocation);
      }
      assert ProductsExist(entries, products);
      ghost var before := vials;
      var created := AppendBatch(account, entries, dateOf, now);
      CreatedShape(entries, products, old(nextVialId), account, dateOf, now);
      PositiveTotal(entries);
      NewRowsKeepInvariant(before, created, old(nextVialId));
      auditLogs := auditLogs + [IntakeAudit(account, user, entries, created, now)];
      result := Ok(created);
    }

    /**
     * The transaction's creation loops: for each entry in order, one new
     * vial row per unit of its quantity.
     */
    method AppendBatch(account: Id, entries: seq<IntakeEntry>, dateOf: string -> int, now: int)
      returns (newVials: seq<Vial>)
      requires ProductsExist(entries, products)
      modifies this`vials, this`nextVialId
      ensures newVials == Created(entries, products, old(nextVialId), account, dateOf, now)
      ensures vials == old(vials) + newVials
      ensures nextVialId == old(nextVialId) + |newVials|
    {
      ghost var firstId := nextVialId;
      ghost var before := vials;
      newVials := [];
      var k := 0;
      while k < |entries|
        invariant 0 <= k <= |entries|
        invariant ProductsExist(entries[..k], products)
        invariant newVials == Created(entries[..k], products, firstId, account, dateOf, now)
        invariant vials == before + newVials
        invariant nextVialId == firstId + |newVials|
      {
        var entry := entries[k];
        var product := ProductById(products, entry.productId).value;
        ghost var base := newVials;
        var i: nat := 0;
        while i < entry.quantity
          invariant i <= Copies(entry)
          invariant newVials == base + Units(entry, product, firstId + |base|, i, account, dateOf, now)
          invariant vials == before + newVials
          invariant nextVialId == firstId + |newVials|
        {
          var vial := NewVial(entry, product, nextVialId, account, dateOf, now);
          assert Units(entry, product, firstId + |base|, i + 1, account, dateOf, now)
              == Units(entry, product, firstId + |base|, i, account, dateOf, now) + [vial];
          vials := vials + [vial];
          newVials := newVials + [vial];
          nextVialId := nextVialId + 1;
          i := i + 1;
        }
        assert entries[..k + 1][..k] == entries[..k];
        assert ProductsExist(entries[..k + 1], products) by {
          assert forall j :: 0 <= j < k + 1 ==> entries[..k + 1][j] == entries[j];
        }
        k := k + 1;
      }
      assert entries[..k] == entries;
    }

    /** Appending fresh intake rows numbered from `firstId` keeps the invariant. */
    lemma NewRowsKeepInvariant(before: seq<Vial>, created: seq<Vial>, firstId: nat)
      requires forall i :: 0 <= i < |before| ==>
        WellFormed(before[i]) && before[i].id < firstId && ProductById(products, before[i].productId).Some?
      requires forall i, j :: 0 <= i < j < |before| ==> before[i].id < before[j].id
      requires forall p :: p in products ==> p.unitsPerVial >= 1.0
      requires UniqueIds(products)
      requires forall i :: 0 <= i < |created| ==>
        FreshFromIntake(created[i], products, firstId + i, created[i].accountId, created[i].createdAt)
      requires vials == before + created && nextVialId == firstId + |created|
      ensures Valid()
    {
      forall i | 0 <= i < |created|
        ensures WellFormed(created[i])
      {
        var p := ProductById(products, created[i].productId).value;
        assert p in products;
      }
    }
  }

  /** An accepted batch creates at least one vial. */
  lemma PositiveTotal(entries: seq<IntakeEntry>)
    requires ValidateIntake(entries).None?
    ensures TotalCopies(entries) > 0
  {
    var last := entries[|entries| - 1];
    assert EntryIssue(last).None?;
  }
}
