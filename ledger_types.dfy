/**
 * The records of the vial ledger: vials, the catalog rows they refer to
 * (products, locations, providers), the append-only usage and audit logs,
 * and the errors the ledger's operations report.
 *
 * Quantities are exact reals (the store keeps decimals); timestamps are
 * integers (milliseconds); vial ids are the serial numbers the ledger hands
 * out, every other id is an opaque string.
 */
module LedgerTypes {

  datatype Option<+T> = None | Some(value: T)

  datatype Result<+T, +E> = Ok(value: T) | Err(error: E)

  type Id = string
  type VialId = nat

  /** A form field read with JavaScript truthiness: an empty string counts as absent. */
  predicate Present(o: Option<string>) {
    o.Some? && o.value != ""
  }

  /** `x || null`: the field itself when present, otherwise absent. */
  function OrNull(o: Option<string>): (r: Option<string>)
    ensures r.Some? <==> Present(o)
    ensures r.Some? ==> r == o
  {
    if Present(o) then o else None
  }

  datatype VialStatus = Active | Depleted | Expired | Disposed | Quarantined

  datatype Product = Product(
    id: Id,
    accountId: Id,
    name: string,
    unitType: string,      // the enum name, e.g. "UNITS" or "ML"
    unitsPerVial: real,    // nominal fill of one vial
    active: bool)

  datatype Location = Location(id: Id, accountId: Id, name: string)

  datatype Provider = Provider(id: Id, accountId: Id, name: string)

  datatype Vial = Vial(
    id: VialId,
    accountId: Id,
    productId: Id,
    lotNumber: string,
    expirationDate: int,
    locationId: Option<Id>,
    initialQuantity: real,
    remainingQuantity: real,
    status: VialStatus,
    depletedDate: Option<int>,
    createdAt: int)

  /**
   * The per-vial ledger invariant: the remaining quantity lies between 0 and
   * the initial fill, a vial is DEPLETED exactly when nothing remains, and
   * it carries a depletion date exactly when it is DEPLETED.
   */
  predicate WellFormed(v: Vial) {
    && 0.0 < v.initialQuantity
    && 0.0 <= v.remainingQuantity <= v.initialQuantity
    && (v.status == Depleted <==> v.remainingQuantity == 0.0)
    && (v.depletedDate.Some? <==> v.status == Depleted)
  }

  datatype UsageLog = UsageLog(
    accountId: Id,
    vialId: VialId,
    loggedById: Id,
    providerId: Option<Id>,
    quantityUsed: real,
    patientReference: Option<string>,
    treatmentArea: Option<string>,
    notes: Option<string>,
    usedAt: int)

  /** The audit actions the ledger's operations write. */
  datatype AuditAction = VialReceived | UsageLogged

  datatype ActorType = User | System

  /** One intake entry as echoed into the intake audit row. */
  datatype EntrySummary = EntrySummary(productId: Id, lotNumber: string, quantity: int)

  datatype AuditMetadata =
    | UsageDetails(
        productName: string,
        lotNumber: string,
        quantityUsed: real,
        remainingQuantity: real,
        providerId: Option<Id>,
        patientRef: Option<string>)
    | IntakeDetails(vialsCreated: nat, entries: seq<EntrySummary>)

  datatype AuditLog = AuditLog(
    accountId: Id,
    userId: Option<Id>,
    action: AuditAction,
    actorType: ActorType,
    entityType: string,
    entityId: Option<VialId>,
    metadata: AuditMetadata,
    createdAt: int)

  datatype Error =
    | Validation(message: string)
    | NotFound                                  // "Vial not found"
    | NotActive                                 // "Vial is not active"
    | Insufficient(remaining: real, unitLabel: string)  // "Only <remaining> <unit> remaining"
    | ProviderNotFound                          // "Provider not found"
    | InvalidProduct                            // "Invalid product selected"
    | InvalidLocation                           // "Invalid location selected"

  /** The HTTP status each error is answered with. */
  function HttpStatus(e: Error): (code: int)
    ensures code == 404 <==> e.NotFound? || e.ProviderNotFound?
    ensures code == 400 || code == 404
  {
    match e
    case NotFound => 404
    case ProviderNotFound => 404
    case _ => 400
  }

  /** Product ids are the store's primary key: no two catalog rows share one. */
  predicate UniqueIds(products: seq<Product>) {
    forall i, j :: 0 <= i < j < |products| ==> products[i].id != products[j].id
  }

  /** The product row with the given id, if the catalog has one. */
  function ProductById(products: seq<Product>, id: Id): (r: Option<Product>)
    ensures r.Some? ==> r.value in products && r.value.id == id
    ensures r.None? ==> forall p :: p in products ==> p.id != id
  {
    if |products| == 0 then None
    else if products[0].id == id then Some(products[0])
    else ProductById(products[1..], id)
  }
}
