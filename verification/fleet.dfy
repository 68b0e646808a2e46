/** The records the rental ledger keeps: vehicles, customers and rentals,
    with the small state changes each of them supports. */
module Fleet {

  /** The three vehicle subclasses, which differ only in their label. */
  datatype Kind = Car | Bike | Truck

  /** The label `getType` reports for each kind. */
  function Label(k: Kind): string {
    match k
    case Car => "Car"
    case Bike => "Bike"
    case Truck => "Truck"
  }

  /** A vehicle. The per-day price is kept in whole cents, so that every
      price is an exact natural number. */
  datatype Vehicle = Vehicle(
    id: string,
    brand: string,
    model: string,
    kind: Kind,
    basePricePerDay: nat,
    available: bool,
    usageCount: nat)

  /** A freshly constructed vehicle: available and never used. */
  function NewVehicle(id: string, brand: string, model: string, kind: Kind, basePricePerDay: nat): Vehicle {
    Vehicle(id, brand, model, kind, basePricePerDay, true, 0)
  }

  /** `Vehicle.rent`: the vehicle goes out; nothing else changes. */
  function MarkRented(v: Vehicle): (r: Vehicle)
    ensures !r.available
    ensures r.id == v.id && r.brand == v.brand && r.model == v.model && r.kind == v.kind
    ensures r.basePricePerDay == v.basePricePerDay && r.usageCount == v.usageCount
  {
    v.(available := false)
  }

  /** `Vehicle.returnVehicle`: the vehicle comes back; nothing else changes. */
  function MarkReturned(v: Vehicle): (r: Vehicle)
    ensures r.available
    ensures r.id == v.id && r.brand == v.brand && r.model == v.model && r.kind == v.kind
    ensures r.basePricePerDay == v.basePricePerDay && r.usageCount == v.usageCount
  {
    v.(available := true)
  }

  /** `Vehicle.incrementUsage`: one more confirmed rental on the counter;
      nothing else changes. */
  function IncrementUsage(v: Vehicle): (r: Vehicle)
    ensures r.usageCount == v.usageCount + 1
    ensures r.id == v.id && r.brand == v.brand && r.model == v.model && r.kind == v.kind
    ensures r.basePricePerDay == v.basePricePerDay && r.available == v.available
  {
    v.(usageCount := v.usageCount + 1)
  }

  /** `Vehicle.calculatePrice`: the per-day price times the number of days. */
  function CalculatePrice(v: Vehicle, days: nat): nat {
    v.basePricePerDay * days
  }

  /** The price determines the per-day rate: dividing it by a positive day
      count gives the per-day price back with nothing left over, and it is
      zero only for a free vehicle or no days. */
  lemma PriceRecoversRate(v: Vehicle, days: nat)
    ensures days > 0 ==> CalculatePrice(v, days) / days == v.basePricePerDay
    ensures days > 0 ==> CalculatePrice(v, days) % days == 0
    ensures CalculatePrice(v, days) == 0 <==> v.basePricePerDay == 0 || days == 0
  {
    var p := v.basePricePerDay;
    if days > 0 {
      DivExact(p, days);
    }
    if p > 0 && days > 0 {
      MulPositive(p, days);
    }
  }

  lemma MulPositive(p: nat, d: nat)
    requires p > 0 && d > 0
    ensures p * d > 0
  {
    assert p * d >= 1 * d;
  }

  /** Exact division, from the uniqueness of the Euclidean quotient. */
  lemma DivExact(p: nat, d: nat)
    requires d > 0
    ensures (p * d) / d == p && (p * d) % d == 0
  {
    var q := (p * d) / d;
    var m := (p * d) % d;
    assert p * d == q * d + m && 0 <= m < d;
    assert (p - q) * d == m;
    if p > q {
      MulAtLeast(p - q, d);
      assert false;
    } else if q > p {
      MulAtMost(p - q, d);
      assert false;
    }
  }

  lemma MulAtLeast(k: int, d: nat)
    requires k >= 1
    ensures k * d >= d
  {
    assert k * d == (k - 1) * d + d;
  }

  lemma MulAtMost(k: int, d: nat)
    requires k <= -1
    ensures k * d + d <= 0
  {
    assert k * d == -((-k) * d);
    MulAtLeast(-k, d);
  }

  /** Returning a vehicle undoes renting it, and the rent/usage/return cycle
      changes nothing but the usage counter. */
  lemma RentReturnRoundTrip(v: Vehicle)
    requires v.available
    ensures MarkReturned(MarkRented(v)) == v
    ensures MarkReturned(IncrementUsage(MarkRented(v))) == IncrementUsage(v)
  {
  }

  /** The usage count at which the admin maintenance check flags a vehicle. */
  const MaintenanceThreshold: nat := 5

  predicate NeedsMaintenance(v: Vehicle) {
    v.usageCount >= MaintenanceThreshold
  }

  /** A customer. Loyalty points are an unbounded count. */
  datatype Customer = Customer(id: string, name: string, loyaltyPoints: nat)

  /** `Customer.addLoyaltyPoints`: the balance grows by exactly `pts`; the
      customer's identity is untouched. */
  function AddLoyaltyPoints(c: Customer, pts: nat): (r: Customer)
    ensures r.id == c.id && r.name == c.name
    ensures r.loyaltyPoints - c.loyaltyPoints == pts
    ensures r.loyaltyPoints >= c.loyaltyPoints
  {
    c.(loyaltyPoints := c.loyaltyPoints + pts)
  }

  /** An active rental: the index of the rented vehicle and of the renting
      customer in the ledger's lists, and the number of days. */
  datatype Rental = Rental(vehicle: nat, customer: nat, days: nat)
}
