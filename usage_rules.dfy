/**
 * The decisions of the usage-recording handler: the request schema, the
 * ordered checks that can reject a request, the depletion arithmetic, and
 * the usage and audit rows a successful request writes. The writes
 * themselves are `Ledger.RecordUsage`.
 */
module UsageRules {
  import opened LedgerTypes
  import opened Text

  /** The validated body of a usage request; `providerId` and the free-text fields may be absent or empty. */
  datatype UsageRequest = UsageRequest(
    vialId: VialId,
    providerId: Option<Id>,
    quantityUsed: real,
    patientRef: Option<string>,
    treatmentArea: Option<string>,
    notes: Option<string>)

  /** The smallest quantity the schema accepts. */
  const MinQuantityUsed: real := 0.1

  const QuantityMessage: string := "Quantity must be greater than 0"

  /** `findFirst({ id, accountId })`: the first vial of the account with that id. */
  function FindVial(vials: seq<Vial>, id: VialId, account: Id): (r: Option<nat>)
    ensures r.Some? ==> r.value < |vials| && vials[r.value].id == id && vials[r.value].accountId == account
    ensures r.Some? ==> forall j :: 0 <= j < r.value ==> !(vials[j].id == id && vials[j].accountId == account)
    ensures r.None? ==> forall j :: 0 <= j < |vials| ==> !(vials[j].id == id && vials[j].accountId == account)
    decreases |vials|
  {
    if |vials| == 0 then None
    else if vials[0].id == id && vials[0].accountId == account then Some(0)
    else
      match FindVial(vials[1..], id, account)
      case None => None
      case Some(k) => Some(k + 1)
  }

  /** A provider id resolves within the account. */
  predicate ProviderOwned(providers: map<Id, Provider>, id: Id, account: Id) {
    id in providers && providers[id].accountId == account
  }

  /** Every vial refers to a product of the catalog (the store's foreign key). */
  predicate ProductsResolve(vials: seq<Vial>, products: seq<Product>) {
    forall i :: 0 <= i < |vials| ==> ProductById(products, vials[i].productId).Some?
  }

  /**
   * The checks of a usage request, in the handler's order: the schema, the
   * vial's existence in the account, its ACTIVE status, the sufficiency of
   * what remains, and the provider's ownership. The first failure is the
   * answer; otherwise the index of the vial to update.
   */
  function CheckUsage(
    vials: seq<Vial>, products: seq<Product>, providers: map<Id, Provider>,
    account: Id, req: UsageRequest): (r: Result<nat, Error>)
    requires ProductsResolve(vials, products)
    ensures r == Err(Validation(QuantityMessage)) <==> req.quantityUsed < MinQuantityUsed
    ensures r == Err(NotFound) <==>
      MinQuantityUsed <= req.quantityUsed && FindVial(vials, req.vialId, account).None?
    ensures r == Err(NotActive) <==>
      && MinQuantityUsed <= req.quantityUsed
      && FindVial(vials, req.vialId, account).Some?
      && vials[FindVial(vials, req.vialId, account).value].status != Active
    ensures r.Err? && r.error.Insufficient? <==>
      && MinQuantityUsed <= req.quantityUsed
      && FindVial(vials, req.vialId, account).Some?
      && vials[FindVial(vials, req.vialId, account).value].status == Active
      && req.quantityUsed > vials[FindVial(vials, req.vialId, account).value].remainingQuantity
    ensures r.Err? && r.error.Insufficient? ==>
      var v := vials[FindVial(vials, req.vialId, account).value];
      && r.error.remaining == v.remainingQuantity
      && r.error.unitLabel == Lower(ProductById(products, v.productId).value.unitType)
    ensures r == Err(ProviderNotFound) <==>
      && MinQuantityUsed <= req.quantityUsed
      && FindVial(vials, req.vialId, account).Some?
      && var v := vials[FindVial(vials, req.vialId, account).value];
      && v.status == Active
      && req.quantityUsed <= v.remainingQuantity
      && Present(req.providerId) && !ProviderOwned(providers, req.providerId.value, account)
    ensures r.Ok? <==>
      && MinQuantityUsed <= req.quantityUsed
      && FindVial(vials, req.vialId, account).Some?
      && var v := vials[FindVial(vials, req.vialId, account).value];
      && v.status == Active
      && req.quantityUsed <= v.remainingQuantity
      && (Present(req.providerId) ==> ProviderOwned(providers, req.providerId.value, account))
    ensures r.Ok? ==> r == Ok(FindVial(vials, req.vialId, account).value)
  {
    if req.quantityUsed < MinQuantityUsed then Err(Validation(QuantityMessage))
    else match FindVial(vials, req.vialId, account)
      case None => Err(NotFound)
      case Some(i) =>
        var v := vials[i];
        if v.status != Active then Err(NotActive)
        else if req.quantityUsed > v.remainingQuantity then
          Err(Insufficient(v.remainingQuantity, Lower(ProductById(products, v.productId).value.unitType)))
        else if Present(req.providerId) && !ProviderOwned(providers, req.providerId.value, account) then
          Err(ProviderNotFound)
        else Ok(i)
  }

  /** `Math.max(0, remaining - used)`. */
  function NewRemaining(remaining: real, used: real): real {
    if remaining - used > 0.0 then remaining - used else 0.0
  }

  /** DEPLETED when the difference reaches zero or below, ACTIVE otherwise. */
  function NewStatus(remaining: real, used: real): VialStatus {
    if remaining - used <= 0.0 then Depleted else Active
  }

  /**
   * The update the handler makes to the vial: only the remaining quantity,
   * the status and (on depletion) the depletion date change.
   */
  function ApplyUsage(v: Vial, used: real, now: int): (w: Vial)
    ensures w.(remainingQuantity := v.remainingQuantity, status := v.status, depletedDate := v.depletedDate) == v
    ensures 0.0 <= w.remainingQuantity
    ensures w.status == Depleted <==> used >= v.remainingQuantity
    ensures w.status == Depleted ==> w.remainingQuantity == 0.0 && w.depletedDate == Some(now)
    ensures w.status != Depleted ==>
      w.status == Active && w.remainingQuantity == v.remainingQuantity - used && w.depletedDate == v.depletedDate
    ensures 0.0 < used <= v.remainingQuantity ==> w.remainingQuantity == v.remainingQuantity - used
    ensures WellFormed(v) && v.status == Active && 0.0 < used <= v.remainingQuantity ==>
      WellFormed(w) && w.remainingQuantity < v.remainingQuantity
  {
    var status := NewStatus(v.remainingQuantity, used);
    v.(remainingQuantity := NewRemaining(v.remainingQuantity, used),
       status := status,
       depletedDate := if status == Depleted then Some(now) else v.depletedDate)
  }

  /** The usage row a successful request inserts. */
  function UsageRow(account: Id, user: Id, req: UsageRequest, now: int): UsageLog {
    UsageLog(account, req.vialId, user, OrNull(req.providerId), req.quantityUsed,
             OrNull(req.patientRef), OrNull(req.treatmentArea), OrNull(req.notes), now)
  }

  /** The USAGE_LOGGED audit row a successful request inserts; `v` is the vial before the update. */
  function UsageAudit(account: Id, user: Id, req: UsageRequest, v: Vial, product: Product, now: int): AuditLog {
    AuditLog(account, Some(user), UsageLogged, User, "VIAL", Some(req.vialId),
             UsageDetails(product.name, v.lotNumber, req.quantityUsed,
                          v.remainingQuantity - req.quantityUsed, req.providerId, req.patientRef),
             now)
  }
}
