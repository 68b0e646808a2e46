/** The rental ledger: the three lists the rental system owns and the
    transitions the menu drives over them. Console input arrives as
    parameters (the raw lines the user typed, and the result of parsing the
    day count); what the flows print becomes an outcome value. */
module RentalSystem {
  import opened Wrappers
  import opened Text
  import opened JavaInt
  import opened Search
  import opened Fleet

  /** All state of one run: vehicles, customers and active rentals, each in
      insertion order. Rentals refer to vehicles and customers by index. */
  datatype Ledger = Ledger(vehicles: seq<Vehicle>, customers: seq<Customer>, rentals: seq<Rental>)

  /** What a transition reports, together with the ledger after it. */
  datatype Step<+O> = Step(outcome: O, ledger: Ledger)

  const EmptyLedger: Ledger := Ledger([], [], [])

  // ---------------------------------------------------------------------
  // The ledger invariant
  // ---------------------------------------------------------------------

  /** The number of active rentals that refer to vehicle `i`. */
  function RefCount(rs: seq<Rental>, i: nat): nat {
    if |rs| == 0 then 0
    else RefCount(rs[..|rs| - 1], i) + (if rs[|rs| - 1].vehicle == i then 1 else 0)
  }

  /** Every rental points into the vehicle and customer lists and lasts at
      least one day. */
  predicate WellFormed(L: Ledger) {
    forall k :: 0 <= k < |L.rentals| ==>
      && L.rentals[k].vehicle < |L.vehicles|
      && L.rentals[k].customer < |L.customers|
      && L.rentals[k].days > 0
  }

  /** A vehicle is out exactly when one active rental refers to it, and an
      available vehicle has none. */
  predicate Consistent(L: Ledger) {
    forall i :: 0 <= i < |L.vehicles| ==>
      RefCount(L.rentals, i) == if L.vehicles[i].available then 0 else 1
  }

  /** The id `getOrCreateCustomer` gives the customer created as number `n`. */
  function CustomerId(n: nat): string {
    "CUST" + NatToString(n)
  }

  /** Customers are numbered `CUST1`, `CUST2`, ... in creation order. */
  predicate CustomerIdsSequential(cs: seq<Customer>) {
    forall i :: 0 <= i < |cs| ==> cs[i].id == CustomerId(i + 1)
  }

  /** No two customers share a name under `equalsIgnoreCase`. */
  predicate NamesDistinct(cs: seq<Customer>) {
    forall i, j :: 0 <= i < j < |cs| ==> !EqualsIgnoreCase(cs[i].name, cs[j].name)
  }

  /** The ledger invariant. Under it a vehicle is out exactly when some
      active rental refers to it. */
  predicate Valid(L: Ledger): (r: bool)
    ensures r ==> forall i :: 0 <= i < |L.vehicles| ==>
      (!L.vehicles[i].available <==> exists k :: 0 <= k < |L.rentals| && L.rentals[k].vehicle == i)
  {
    RefCountZeroIffAll(L.rentals);
    && WellFormed(L)
    && Consistent(L)
    && CustomerIdsSequential(L.customers)
    && NamesDistinct(L.customers)
  }

  /** `b` is `a` after some customers were added and some were awarded
      points: nobody disappears, is renamed, or loses points. */
  predicate CustomersExtend(a: seq<Customer>, b: seq<Customer>) {
    && |a| <= |b|
    && forall i :: 0 <= i < |a| ==>
         && b[i].id == a[i].id
         && b[i].name == a[i].name
         && a[i].loyaltyPoints <= b[i].loyaltyPoints
  }

  /** `b` is `a` plus customers that have no points yet. */
  predicate OnlyNewCustomers(a: seq<Customer>, b: seq<Customer>) {
    && |a| <= |b|
    && b[..|a|] == a
    && forall i :: |a| <= i < |b| ==> b[i].loyaltyPoints == 0
  }

  // ---------------------------------------------------------------------
  // Counting references
  // ---------------------------------------------------------------------

  lemma RefCountAppend(rs: seq<Rental>, r: Rental, i: nat)
    ensures RefCount(rs + [r], i) == RefCount(rs, i) + (if r.vehicle == i then 1 else 0)
  {
    assert (rs + [r])[..|rs|] == rs;
  }

  lemma {:induction false} RefCountConcat(a: seq<Rental>, b: seq<Rental>, i: nat)
    ensures RefCount(a + b, i) == RefCount(a, i) + RefCount(b, i)
    decreases |b|
  {
    if |b| == 0 {
      assert a + b == a;
    } else {
      var b' := b[..|b| - 1];
      assert a + b == (a + b') + [b[|b| - 1]];
      RefCountAppend(a + b', b[|b| - 1], i);
      RefCountConcat(a, b', i);
      assert b == b' + [b[|b| - 1]];
      RefCountAppend(b', b[|b| - 1], i);
    }
  }

  /** Removing the rental at `k` drops the count of its vehicle by one and
      leaves every other count alone. */
  lemma RefCountRemove(rs: seq<Rental>, k: nat, i: nat)
    requires k < |rs|
    ensures RefCount(rs, i) == RefCount(rs[..k] + rs[k + 1..], i) + (if rs[k].vehicle == i then 1 else 0)
  {
    assert rs == (rs[..k] + [rs[k]]) + rs[k + 1..];
    RefCountConcat(rs[..k] + [rs[k]], rs[k + 1..], i);
    RefCountAppend(rs[..k], rs[k], i);
    RefCountConcat(rs[..k], rs[k + 1..], i);
  }

  /** No rental refers to `i` exactly when its count is zero. */
  lemma {:induction false} RefCountZeroIff(rs: seq<Rental>, i: nat)
    ensures RefCount(rs, i) == 0 <==> forall k :: 0 <= k < |rs| ==> rs[k].vehicle != i
  {
    if |rs| > 0 {
      RefCountZeroIff(rs[..|rs| - 1], i);
      assert forall k :: 0 <= k < |rs| - 1 ==> rs[..|rs| - 1][k] == rs[k];
    }
  }

  lemma RefCountZeroIffAll(rs: seq<Rental>)
    ensures forall i: nat :: RefCount(rs, i) == 0 <==> forall k :: 0 <= k < |rs| ==> rs[k].vehicle != i
  {
    forall i: nat
      ensures RefCount(rs, i) == 0 <==> forall k :: 0 <= k < |rs| ==> rs[k].vehicle != i
    {
      RefCountZeroIff(rs, i);
    }
  }

  /** Under the invariant no vehicle is in two active rentals. */
  lemma RentalsDistinctVehicles(L: Ledger, k: nat, l: nat)
    requires Valid(L)
    requires k < l < |L.rentals|
    ensures L.rentals[k].vehicle != L.rentals[l].vehicle
  {
    var v := L.rentals[l].vehicle;
    if L.rentals[k].vehicle == v {
      var rest := L.rentals[..l] + L.rentals[l + 1..];
      RefCountRemove(L.rentals, l, v);
      assert rest[k] == L.rentals[k];
      RefCountZeroIff(rest, v);
      assert false;
    }
  }

  /** Customer ids are pairwise distinct. */
  lemma CustomerIdsUnique(cs: seq<Customer>, i: nat, j: nat)
    requires CustomerIdsSequential(cs)
    requires i < j < |cs|
    ensures cs[i].id != cs[j].id
  {
    if cs[i].id == cs[j].id {
      assert NatToString(i + 1) == CustomerId(i + 1)[4..];
      assert NatToString(j + 1) == CustomerId(j + 1)[4..];
      NatToStringInjective(i + 1, j + 1);
    }
  }

  // ---------------------------------------------------------------------
  // addVehicle
  // ---------------------------------------------------------------------

  /** `addVehicle` with a freshly constructed vehicle: appended as available
      and unused, without a duplicate-id check. */
  function AddVehicle(L: Ledger, id: string, brand: string, model: string, kind: Kind, basePricePerDay: nat): (r: Ledger)
    ensures |r.vehicles| == |L.vehicles| + 1 && r.vehicles[..|L.vehicles|] == L.vehicles
    ensures r.vehicles[|L.vehicles|] == Vehicle(id, brand, model, kind, basePricePerDay, true, 0)
    ensures r.customers == L.customers && r.rentals == L.rentals
  {
    L.(vehicles := L.vehicles + [NewVehicle(id, brand, model, kind, basePricePerDay)])
  }

  /** Registering a vehicle keeps the invariant: no rental can refer to the
      new index, and the new vehicle is available. */
  lemma AddVehiclePreservesValid(L: Ledger, id: string, brand: string, model: string, kind: Kind, basePricePerDay: nat)
    requires Valid(L)
    ensures Valid(AddVehicle(L, id, brand, model, kind, basePricePerDay))
  {
    RefCountZeroIff(L.rentals, |L.vehicles|);
  }

  // ---------------------------------------------------------------------
  // getOrCreateCustomer
  // ---------------------------------------------------------------------

  predicate NameMatches(c: Customer, name: string) {
    EqualsIgnoreCase(c.name, name)
  }

  /** The lookup loop of `getOrCreateCustomer`: the first customer whose
      name equals `name` ignoring case. */
  function FindCustomer(cs: seq<Customer>, name: string): (r: Option<nat>)
    ensures r.Some? ==> r.value < |cs| && NameMatches(cs[r.value], name)
    ensures r.Some? ==> forall j :: 0 <= j < r.value ==> !NameMatches(cs[j], name)
    ensures r.None? <==> forall j :: 0 <= j < |cs| ==> !NameMatches(cs[j], name)
  {
    FindFirst(cs, c => NameMatches(c, name))
  }

  /** `getOrCreateCustomer`: the index of the first customer whose name
      equals `name` ignoring case; on a miss a new customer `CUST<n+1>` with
      no points is appended (n the number of customers so far). */
  function GetOrCreateCustomer(L: Ledger, name: string): (r: Step<nat>)
    ensures r.ledger.vehicles == L.vehicles && r.ledger.rentals == L.rentals
    ensures r.outcome < |r.ledger.customers|
    ensures NameMatches(r.ledger.customers[r.outcome], name)
    ensures forall j :: 0 <= j < r.outcome ==> !NameMatches(r.ledger.customers[j], name)
    ensures OnlyNewCustomers(L.customers, r.ledger.customers)
    ensures |r.ledger.customers| <= |L.customers| + 1
    ensures (exists i :: 0 <= i < |L.customers| && NameMatches(L.customers[i], name)) <==> r.ledger == L
    ensures r.ledger != L ==>
      && r.outcome == |L.customers|
      && r.ledger.customers[r.outcome] == Customer(CustomerId(|L.customers| + 1), name, 0)
  {
    match FindCustomer(L.customers, name)
    case Some(i) => Step(i, L)
    case None =>
      var c := Customer(CustomerId(|L.customers| + 1), name, 0);
      var cs := L.customers + [c];
      assert cs[..|L.customers|] == L.customers;
      assert |cs| != |L.customers|;
      Step(|L.customers|, L.(customers := cs))
  }

  /** A second lookup with any case variant of the name finds the same
      customer and changes nothing. */
  lemma {:induction false} GetOrCreateCustomerIdempotent(L: Ledger, a: string, b: string)
    requires EqualsIgnoreCase(a, b)
    ensures var first := GetOrCreateCustomer(L, a);
            GetOrCreateCustomer(first.ledger, b) == first
  {
    var first := GetOrCreateCustomer(L, a);
    var cs := first.ledger.customers;
    var i := first.outcome;
    assert NameMatches(cs[i], b) by {
      EqualsIgnoreCaseTransitive(cs[i].name, a, b);
    }
    forall j | 0 <= j < i
      ensures !NameMatches(cs[j], b)
    {
      if NameMatches(cs[j], b) {
        EqualsIgnoreCaseSymmetric(a, b);
        EqualsIgnoreCaseTransitive(cs[j].name, b, a);
      }
    }
    FindCustomerAt(cs, b, i);
  }

  /** The lookup stops at the first match. */
  lemma FindCustomerAt(cs: seq<Customer>, name: string, i: nat)
    requires i < |cs| && NameMatches(cs[i], name)
    requires forall j :: 0 <= j < i ==> !NameMatches(cs[j], name)
    ensures FindCustomer(cs, name) == Some(i)
  {
  }

  /** `getOrCreateCustomer` keeps the invariant: in particular it never
      creates a second customer under a case variant of an existing name. */
  lemma GetOrCreateCustomerPreservesValid(L: Ledger, name: string)
    requires Valid(L)
    ensures Valid(GetOrCreateCustomer(L, name).ledger)
  {
    var r := GetOrCreateCustomer(L, name);
    var cs := r.ledger.customers;
    if r.ledger != L {
      forall i, j | 0 <= i < j < |cs|
        ensures !EqualsIgnoreCase(cs[i].name, cs[j].name)
      {
        if j == |L.customers| {
          assert !NameMatches(L.customers[i], name);
        } else {
          assert cs[i] == L.customers[i] && cs[j] == L.customers[j];
        }
      }
      forall i | 0 <= i < |cs|
        ensures cs[i].id == CustomerId(i + 1)
      {
        if i < |L.customers| {
          assert cs[i] == L.customers[i];
        }
      }
    }
  }

  // ---------------------------------------------------------------------
  // rentVehicleFlow
  // ---------------------------------------------------------------------

  /** How the rent flow ends. `Rented` carries the chosen vehicle and
      customer, the price and the points awarded. */
  datatype RentOutcome =
    | NameRequired
    | NoVehiclesAvailable
    | InvalidSelection
    | InvalidDays
    | NonPositiveDays
    | Cancelled(price: nat)
    | Rented(vehicle: nat, customer: nat, price: nat, points: nat)

  /** Points awarded per rental day. */
  const PointsPerDay: nat := 10

  predicate AnyAvailable(vs: seq<Vehicle>) {
    exists i :: 0 <= i < |vs| && vs[i].available
  }

  /** A vehicle the rent flow accepts for the typed id. */
  predicate Rentable(v: Vehicle, vid: string) {
    EqualsIgnoreCase(v.id, vid) && v.available
  }

  /** The selection loop of the rent flow: the first vehicle that is
      available and whose id equals `vid` ignoring case. */
  function SelectVehicle(vs: seq<Vehicle>, vid: string): (r: Option<nat>)
    ensures r.Some? ==> r.value < |vs| && Rentable(vs[r.value], vid)
    ensures r.Some? ==> forall j :: 0 <= j < r.value ==> !Rentable(vs[j], vid)
    ensures r.None? <==> forall j :: 0 <= j < |vs| ==> !Rentable(vs[j], vid)
  {
    FindFirst(vs, v => Rentable(v, vid))
  }

  /** The confirmation prompt accepts a trimmed "Y" in either case: the
      trimmed answer is exactly "y" or "Y". */
  predicate Confirmed(answerLine: string): (r: bool)
    ensures r <==> Trim(answerLine) == "y" || Trim(answerLine) == "Y"
  {
    var t := Trim(answerLine);
    assert |t| == 1 ==> t == [t[0]];
    EqualsIgnoreCase(t, "Y")
  }

  /** A non-blank line, i.e. one whose trimmed form is not empty. */
  predicate NonBlank(line: string) {
    exists i :: 0 <= i < |line| && !IsTrimmable(line[i])
  }

  /** The state change of a confirmed rental. */
  function Confirm(L: Ledger, v: nat, c: nat, days: nat): (L2: Ledger)
    requires v < |L.vehicles| && c < |L.customers|
    ensures |L2.vehicles| == |L.vehicles|
    ensures !L2.vehicles[v].available && L2.vehicles[v].usageCount == L.vehicles[v].usageCount + 1
    ensures L2.vehicles[v].id == L.vehicles[v].id && L2.vehicles[v].basePricePerDay == L.vehicles[v].basePricePerDay
    ensures L2.vehicles[v].brand == L.vehicles[v].brand && L2.vehicles[v].model == L.vehicles[v].model
    ensures L2.vehicles[v].kind == L.vehicles[v].kind
    ensures forall j :: 0 <= j < |L.vehicles| && j != v ==> L2.vehicles[j] == L.vehicles[j]
    ensures L2.rentals == L.rentals + [Rental(v, c, days)]
    ensures |L2.customers| == |L.customers|
    ensures L2.customers[c].loyaltyPoints == L.customers[c].loyaltyPoints + 10 * days
    ensures L2.customers[c].id == L.customers[c].id && L2.customers[c].name == L.customers[c].name
    ensures forall j :: 0 <= j < |L.customers| && j != c ==> L2.customers[j] == L.customers[j]
  {
    Ledger(
      L.vehicles[v := IncrementUsage(MarkRented(L.vehicles[v]))],
      L.customers[c := AddLoyaltyPoints(L.customers[c], PointsPerDay * days)],
      L.rentals + [Rental(v, c, days)])
  }

  /** The state change of a confirmed rental keeps the invariant: the
      chosen vehicle was available, so no rental referred to it, and now
      exactly one does. */
  lemma ConfirmPreservesValid(L: Ledger, v: nat, c: nat, days: nat)
    requires Valid(L)
    requires v < |L.vehicles| && L.vehicles[v].available
    requires c < |L.customers| && days > 0
    ensures Valid(Confirm(L, v, c, days))
  {
    var L2 := Confirm(L, v, c, days);
    assert WellFormed(L2) by {
      assert forall k :: 0 <= k < |L.rentals| ==> L2.rentals[k] == L.rentals[k];
    }
    assert Consistent(L2) by {
      ConfirmConsistent(L, v, c, days);
    }
    assert CustomerIdsSequential(L2.customers) && NamesDistinct(L2.customers) by {
      ConfirmKeepsCustomerIdentity(L, v, c, days);
    }
  }

  lemma ConfirmConsistent(L: Ledger, v: nat, c: nat, days: nat)
    requires Consistent(L)
    requires v < |L.vehicles| && L.vehicles[v].available
    requires c < |L.customers|
    ensures Consistent(Confirm(L, v, c, days))
  {
    var L2 := Confirm(L, v, c, days);
    forall i | 0 <= i < |L2.vehicles|
      ensures RefCount(L2.rentals, i) == if L2.vehicles[i].available then 0 else 1
    {
      RefCountAppend(L.rentals, Rental(v, c, days), i);
    }
  }

  lemma ConfirmKeepsCustomerIdentity(L: Ledger, v: nat, c: nat, days: nat)
    requires CustomerIdsSequential(L.customers) && NamesDistinct(L.customers)
    requires v < |L.vehicles| && c < |L.customers|
    ensures CustomerIdsSequential(Confirm(L, v, c, days).customers)
    ensures NamesDistinct(Confirm(L, v, c, days).customers)
  {
    var cs := Confirm(L, v, c, days).customers;
    assert forall i :: 0 <= i < |cs| ==> cs[i].id == L.customers[i].id && cs[i].name == L.customers[i].name;
  }

  /** The rent flow once customer `c` is known: vehicle selection, the day
      count, the price and the confirmation. Only a confirmed rental changes
      the ledger. */
  function RentFor(L: Ledger, c: nat, vid: string, days: Option<int32>, answerLine: string): (r: Step<RentOutcome>)
    requires c < |L.customers|
    ensures !r.outcome.Rented? ==> r.ledger == L
    ensures r.outcome.Rented? ==>
      && r.outcome.customer == c
      && SelectVehicle(L.vehicles, vid) == Some(r.outcome.vehicle)
      && days.Some? && days.value > 0
      && r.outcome.points == 10 * days.value
      && r.ledger == Confirm(L, r.outcome.vehicle, c, days.value as nat)
    ensures CustomersExtend(L.customers, r.ledger.customers)
  {
    if !AnyAvailable(L.vehicles) then Step(NoVehiclesAvailable, L)
    else match SelectVehicle(L.vehicles, vid)
      case None => Step(InvalidSelection, L)
      case Some(v) =>
        match days
        case None => Step(InvalidDays, L)
        case Some(d) =>
          if d <= 0 then Step(NonPositiveDays, L)
          else
            var price := CalculatePrice(L.vehicles[v], d);
            if !Confirmed(answerLine) then Step(Cancelled(price), L)
            else
              var r := Step(Rented(v, c, price, PointsPerDay * d), Confirm(L, v, c, d));
              assert CustomersExtend(L.customers, r.ledger.customers) by {
                forall i | 0 <= i < |L.customers|
                  ensures r.ledger.customers[i].loyaltyPoints >= L.customers[i].loyaltyPoints
                {
                }
              }
              r
  }

  /** `rentVehicleFlow`. The four console answers are parameters: the name
      line, the vehicle-id line, the day count as `Integer.parseInt` read it
      (`None` where it threw), and the confirmation line. Only a confirmed
      rental changes vehicles and rentals; no branch takes points away. */
  function Rent(L: Ledger, nameLine: string, vidLine: string, days: Option<int32>, answerLine: string): (r: Step<RentOutcome>)
    ensures !r.outcome.Rented? ==> r.ledger.vehicles == L.vehicles && r.ledger.rentals == L.rentals
    ensures !r.outcome.Rented? ==> OnlyNewCustomers(L.customers, r.ledger.customers)
    ensures CustomersExtend(L.customers, r.ledger.customers)
  {
    var name := Trim(nameLine);
    if |name| == 0 then Step(NameRequired, L)
    else
      var cust := GetOrCreateCustomer(L, name);
      assert CustomersExtend(L.customers, cust.ledger.customers) by {
        assert forall i :: 0 <= i < |L.customers| ==> cust.ledger.customers[i] == cust.ledger.customers[..|L.customers|][i];
      }
      RentFor(cust.ledger, cust.outcome, Trim(vidLine), days, answerLine)
  }

  /** A selectable vehicle, a positive day count and a confirmation make the
      rent flow charge base price times days, award ten points a day and
      record the rental. */
  lemma RentForConfirmed(L: Ledger, c: nat, vid: string, v: nat, d: int32, answerLine: string)
    requires c < |L.customers|
    requires SelectVehicle(L.vehicles, vid) == Some(v)
    requires d > 0 && Confirmed(answerLine)
    ensures RentFor(L, c, vid, Some(d), answerLine)
         == Step(Rented(v, c, L.vehicles[v].basePricePerDay * d, PointsPerDay * d), Confirm(L, v, c, d))
  {
    assert L.vehicles[v].available;
  }

  /** Which branch the rent flow takes once the name is accepted. */
  lemma RentForOutcomeCases(L: Ledger, c: nat, vid: string, days: Option<int32>, answerLine: string)
    requires c < |L.customers|
    ensures var r := RentFor(L, c, vid, days, answerLine);
            var selectable := exists j :: 0 <= j < |L.vehicles| && Rentable(L.vehicles[j], vid);
            && (r.outcome == NoVehiclesAvailable <==> !AnyAvailable(L.vehicles))
            && (r.outcome == InvalidSelection <==> AnyAvailable(L.vehicles) && !selectable)
            && (r.outcome == InvalidDays <==> selectable && days.None?)
            && (r.outcome == NonPositiveDays <==> selectable && days.Some? && days.value <= 0)
            && (r.outcome.Cancelled? <==> selectable && days.Some? && days.value > 0 && !Confirmed(answerLine))
            && (r.outcome.Rented? <==> selectable && days.Some? && days.value > 0 && Confirmed(answerLine))
  {
    if exists j :: 0 <= j < |L.vehicles| && Rentable(L.vehicles[j], vid) {
      var j :| 0 <= j < |L.vehicles| && Rentable(L.vehicles[j], vid);
      assert L.vehicles[j].available;
    }
  }

  /** Which branch the rent flow takes, as a function of its inputs. The
      vehicle list is examined as it was before the call: creating a customer
      does not touch it. */
  lemma RentOutcomeCases(L: Ledger, nameLine: string, vidLine: string, days: Option<int32>, answerLine: string)
    ensures var r := Rent(L, nameLine, vidLine, days, answerLine);
            var vid := Trim(vidLine);
            var selectable := exists j :: 0 <= j < |L.vehicles| && Rentable(L.vehicles[j], vid);
            var gates := NonBlank(nameLine) && selectable;
            && (r.outcome == NameRequired <==> !NonBlank(nameLine))
            && (r.outcome == NoVehiclesAvailable <==> NonBlank(nameLine) && !AnyAvailable(L.vehicles))
            && (r.outcome == InvalidSelection <==> NonBlank(nameLine) && AnyAvailable(L.vehicles) && !selectable)
            && (r.outcome == InvalidDays <==> gates && days.None?)
            && (r.outcome == NonPositiveDays <==> gates && days.Some? && days.value <= 0)
            && (r.outcome.Cancelled? <==> gates && days.Some? && days.value > 0 && !Confirmed(answerLine))
            && (r.outcome.Rented? <==> gates && days.Some? && days.value > 0 && Confirmed(answerLine))
  {
    if NonBlank(nameLine) {
      var cust := GetOrCreateCustomer(L, Trim(nameLine));
      RentForOutcomeCases(cust.ledger, cust.outcome, Trim(vidLine), days, answerLine);
    }
  }

  /** An id whose every match, ignoring case, is already rented out is
      refused whatever the other answers are, and no vehicle or rental
      changes. */
  lemma RentUnavailableRefused(L: Ledger, nameLine: string, vidLine: string, days: Option<int32>, answerLine: string)
    requires forall j :: 0 <= j < |L.vehicles| && EqualsIgnoreCase(L.vehicles[j].id, Trim(vidLine)) ==> !L.vehicles[j].available
    ensures var r := Rent(L, nameLine, vidLine, days, answerLine);
            && r.outcome in {NameRequired, NoVehiclesAvailable, InvalidSelection}
            && r.ledger.vehicles == L.vehicles
            && r.ledger.rentals == L.rentals
  {
    RentOutcomeCases(L, nameLine, vidLine, days, answerLine);
  }

  /** A blank name is refused before anything is looked up or created. */
  lemma RentNameRequiredChangesNothing(L: Ledger, nameLine: string, vidLine: string, days: Option<int32>, answerLine: string)
    requires !NonBlank(nameLine)
    ensures Rent(L, nameLine, vidLine, days, answerLine) == Step(NameRequired, L)
  {
  }

  /** The other refusals, and a declined confirmation, leave vehicles,
      rentals and every customer's points as they were; the only change is
      the customer the flow may already have created for the name. */
  lemma RentRefusalsChangeOnlyCustomers(L: Ledger, nameLine: string, vidLine: string, days: Option<int32>, answerLine: string)
    requires NonBlank(nameLine)
    ensures var r := Rent(L, nameLine, vidLine, days, answerLine);
            !r.outcome.Rented? ==>
              && r.ledger == GetOrCreateCustomer(L, Trim(nameLine)).ledger
              && r.ledger.vehicles == L.vehicles
              && r.ledger.rentals == L.rentals
              && r.ledger.customers[..|L.customers|] == L.customers
              && |r.ledger.customers| <= |L.customers| + 1
  {
  }

  /** A cancelled rental still reports the price it would have cost. */
  lemma RentCancelledPrice(L: Ledger, nameLine: string, vidLine: string, days: Option<int32>, answerLine: string)
    ensures var r := Rent(L, nameLine, vidLine, days, answerLine);
            r.outcome.Cancelled? ==>
              && days.Some? && days.value > 0
              && SelectVehicle(L.vehicles, Trim(vidLine)).Some?
              && r.outcome.price == L.vehicles[SelectVehicle(L.vehicles, Trim(vidLine)).value].basePricePerDay * days.value
  {
    var r := Rent(L, nameLine, vidLine, days, answerLine);
    if r.outcome.Cancelled? {
      var cust := GetOrCreateCustomer(L, Trim(nameLine));
      assert r == RentFor(cust.ledger, cust.outcome, Trim(vidLine), days, answerLine);
      RentForCancelledPrice(cust.ledger, cust.outcome, Trim(vidLine), days, answerLine);
    }
  }

  lemma RentForCancelledPrice(L: Ledger, c: nat, vid: string, days: Option<int32>, answerLine: string)
    requires c < |L.customers|
    ensures var r := RentFor(L, c, vid, days, answerLine);
            r.outcome.Cancelled? ==>
              && days.Some? && days.value > 0
              && SelectVehicle(L.vehicles, vid).Some?
              && r.outcome.price == L.vehicles[SelectVehicle(L.vehicles, vid).value].basePricePerDay * days.value
  {
  }

  /** A confirmed rental does exactly four things: the first available
      vehicle with the typed id goes out with one more use, one rental
      (vehicle, customer, days) is appended, and the customer named (ignoring
      case) gains ten points per day. The price is per-day price times days.
      No other vehicle or customer changes. */
  lemma RentConfirmedEffect(L: Ledger, nameLine: string, vidLine: string, days: Option<int32>, answerLine: string)
    ensures var r := Rent(L, nameLine, vidLine, days, answerLine);
            r.outcome.Rented? ==>
              var v := r.outcome.vehicle;
              var c := r.outcome.customer;
              var before := GetOrCreateCustomer(L, Trim(nameLine)).ledger.customers;
              var after := r.ledger.customers;
              && days.Some? && days.value > 0
              && SelectVehicle(L.vehicles, Trim(vidLine)) == Some(v)
              && GetOrCreateCustomer(L, Trim(nameLine)).outcome == c
              && r.outcome.price == L.vehicles[v].basePricePerDay * days.value
              && r.outcome.points == 10 * days.value
              && |r.ledger.vehicles| == |L.vehicles|
              && r.ledger.vehicles[v] == L.vehicles[v].(available := false, usageCount := L.vehicles[v].usageCount + 1)
              && (forall j :: 0 <= j < |L.vehicles| && j != v ==> r.ledger.vehicles[j] == L.vehicles[j])
              && r.ledger.rentals == L.rentals + [Rental(v, c, days.value as nat)]
              && |after| == |before|
              && c < |after|
              && after[c].loyaltyPoints == before[c].loyaltyPoints + 10 * days.value
              && after[c].id == before[c].id && after[c].name == before[c].name
              && (forall j :: 0 <= j < |before| && j != c ==> after[j] == before[j])
  {
    var r := Rent(L, nameLine, vidLine, days, answerLine);
    if r.outcome.Rented? {
      var cust := GetOrCreateCustomer(L, Trim(nameLine));
      assert r == RentFor(cust.ledger, cust.outcome, Trim(vidLine), days, answerLine);
      assert r.ledger == Confirm(cust.ledger, r.outcome.vehicle, cust.outcome, days.value as nat);
      assert cust.ledger.vehicles == L.vehicles && cust.ledger.rentals == L.rentals;
      RentForPrice(cust.ledger, cust.outcome, Trim(vidLine), days, answerLine);
    }
  }

  lemma RentForPrice(L: Ledger, c: nat, vid: string, days: Option<int32>, answerLine: string)
    requires c < |L.customers|
    ensures var r := RentFor(L, c, vid, days, answerLine);
            r.outcome.Rented? ==> r.outcome.price == L.vehicles[r.outcome.vehicle].basePricePerDay * days.value
  {
  }

  /** Renting keeps the invariant, whichever branch the flow takes. */
  lemma RentPreservesValid(L: Ledger, nameLine: string, vidLine: string, days: Option<int32>, answerLine: string)
    requires Valid(L)
    ensures Valid(Rent(L, nameLine, vidLine, days, answerLine).ledger)
  {
    if NonBlank(nameLine) {
      var cust := GetOrCreateCustomer(L, Trim(nameLine));
      GetOrCreateCustomerPreservesValid(L, Trim(nameLine));
      var r := RentFor(cust.ledger, cust.outcome, Trim(vidLine), days, answerLine);
      if r.outcome.Rented? {
        ConfirmPreservesValid(cust.ledger, r.outcome.vehicle, cust.outcome, days.value as nat);
      }
    }
  }

  // ---------------------------------------------------------------------
  // returnVehicleFlow
  // ---------------------------------------------------------------------

  /** How the return flow ends; `Returned` names the vehicle and the renting
      customer, whose name the flow prints. */
  datatype ReturnOutcome = NotRented | Returned(vehicle: nat, renter: nat)

  /** An active rental of a vehicle whose id equals `vid` ignoring case. */
  predicate RentalMatches(vs: seq<Vehicle>, r: Rental, vid: string) {
    r.vehicle < |vs| && EqualsIgnoreCase(vs[r.vehicle].id, vid)
  }

  /** The lookup loop of the return flow: the first active rental of a
      vehicle with the typed id. */
  function FindRental(L: Ledger, vid: string): (r: Option<nat>)
    ensures r.Some? ==> r.value < |L.rentals| && RentalMatches(L.vehicles, L.rentals[r.value], vid)
    ensures r.Some? ==> forall j :: 0 <= j < r.value ==> !RentalMatches(L.vehicles, L.rentals[j], vid)
    ensures r.None? <==> forall j :: 0 <= j < |L.rentals| ==> !RentalMatches(L.vehicles, L.rentals[j], vid)
  {
    FindFirst(L.rentals, x => RentalMatches(L.vehicles, x, vid))
  }

  /** The list without its element at `k`, the others in their order. */
  function RemoveAt<T>(s: seq<T>, k: nat): (r: seq<T>)
    requires k < |s|
    ensures |r| == |s| - 1
    ensures forall j :: 0 <= j < k ==> r[j] == s[j]
    ensures forall j :: k <= j < |r| ==> r[j] == s[j + 1]
  {
    s[..k] + s[k + 1..]
  }

  /** Removal takes exactly one copy of the removed element out. */
  lemma RemoveAtMultiset<T>(s: seq<T>, k: nat)
    requires k < |s|
    ensures multiset(RemoveAt(s, k)) + multiset{s[k]} == multiset(s)
  {
    assert s == s[..k] + [s[k]] + s[k + 1..];
  }

  /** `returnVehicleFlow`, with the typed vehicle-id line as parameter.
      Customers are never touched; an unknown id changes nothing. */
  function Return(L: Ledger, vidLine: string): (r: Step<ReturnOutcome>)
    ensures r.ledger.customers == L.customers
    ensures r.outcome.NotRented? ==> r.ledger == L
    ensures r.outcome.Returned? ==> |r.ledger.rentals| + 1 == |L.rentals|
  {
    match FindRental(L, Trim(vidLine))
    case None => Step(NotRented, L)
    case Some(k) =>
      var v := L.rentals[k].vehicle;
      Step(Returned(v, L.rentals[k].customer),
           L.(vehicles := L.vehicles[v := MarkReturned(L.vehicles[v])],
              rentals := RemoveAt(L.rentals, k)))
  }

  /** An id that matches no active rental, ignoring case, is refused and
      nothing changes. */
  lemma ReturnNotRentedChangesNothing(L: Ledger, vidLine: string)
    ensures var r := Return(L, vidLine);
            r.outcome.NotRented? <==>
              forall k :: 0 <= k < |L.rentals| ==> !RentalMatches(L.vehicles, L.rentals[k], Trim(vidLine))
    ensures var r := Return(L, vidLine);
            r.outcome.NotRented? ==> r.ledger == L
  {
  }

  /** A return takes the first active rental whose vehicle has the typed id,
      marks that vehicle available and removes exactly that rental, keeping
      the order of the others. */
  lemma ReturnEffect(L: Ledger, vidLine: string)
    ensures var r := Return(L, vidLine);
            r.outcome.Returned? ==>
              && FindRental(L, Trim(vidLine)).Some?
              && var k := FindRental(L, Trim(vidLine)).value;
                 var v := r.outcome.vehicle;
                 && v == L.rentals[k].vehicle && v < |L.vehicles|
                 && r.outcome.renter == L.rentals[k].customer
                 && r.ledger.vehicles == L.vehicles[v := MarkReturned(L.vehicles[v])]
                 && r.ledger.rentals == L.rentals[..k] + L.rentals[k + 1..]
                 && multiset(r.ledger.rentals) + multiset{L.rentals[k]} == multiset(L.rentals)
  {
    var r := Return(L, vidLine);
    if r.outcome.Returned? {
      var k := FindRental(L, Trim(vidLine)).value;
      RemoveAtMultiset(L.rentals, k);
    }
  }

  /** Under the invariant the returned vehicle was out, and afterwards no
      active rental refers to it. */
  lemma ReturnClearsVehicle(L: Ledger, vidLine: string)
    requires Valid(L)
    ensures var r := Return(L, vidLine);
            r.outcome.Returned? ==>
              var v := r.outcome.vehicle;
              && v < |L.vehicles|
              && !L.vehicles[v].available
              && forall j :: 0 <= j < |r.ledger.rentals| ==> r.ledger.rentals[j].vehicle != v
  {
    var r := Return(L, vidLine);
    if r.outcome.Returned? {
      var k := FindRental(L, Trim(vidLine)).value;
      var v := L.rentals[k].vehicle;
      RefCountRemove(L.rentals, k, v);
      RefCountZeroIff(r.ledger.rentals, v);
    }
  }

  /** A return keeps the invariant. */
  lemma ReturnPreservesValid(L: Ledger, vidLine: string)
    requires Valid(L)
    ensures Valid(Return(L, vidLine).ledger)
  {
    var r := Return(L, vidLine);
    if r.outcome.Returned? {
      var k := FindRental(L, Trim(vidLine)).value;
      var v := L.rentals[k].vehicle;
      var L2 := r.ledger;
      forall i | 0 <= i < |L2.vehicles|
        ensures RefCount(L2.rentals, i) == if L2.vehicles[i].available then 0 else 1
      {
        RefCountRemove(L.rentals, k, i);
      }
    }
  }

  /** Vehicle ids are distinct ignoring case, as in the seed data. */
  predicate VehicleIdsDistinct(vs: seq<Vehicle>) {
    forall i, j :: 0 <= i < j < |vs| ==> !EqualsIgnoreCase(vs[i].id, vs[j].id)
  }

  /** With distinct ids, the rental a confirmation appends is the only one
      whose vehicle carries the id it was selected by. */
  lemma FindRentalAfterConfirm(L: Ledger, v: nat, c: nat, d: nat, vid: string)
    requires Valid(L) && VehicleIdsDistinct(L.vehicles)
    requires v < |L.vehicles| && Rentable(L.vehicles[v], vid)
    requires c < |L.customers|
    ensures FindRental(Confirm(L, v, c, d), vid) == Some(|L.rentals|)
  {
    var L2 := Confirm(L, v, c, d);
    var n := |L.rentals|;
    forall k | 0 <= k < n
      ensures !RentalMatches(L2.vehicles, L2.rentals[k], vid)
    {
      var w := L.rentals[k].vehicle;
      assert L2.rentals[k] == L.rentals[k];
      if w == v {
        assert false;
      } else {
        assert L2.vehicles[w].id == L.vehicles[w].id;
      }
    }
    assert RentalMatches(L2.vehicles, L2.rentals[n], vid);
  }

  /** Returning the rental a confirmation appended, once the lookup finds
      it, restores the vehicle list (but for the extra use) and the rental
      list. */
  lemma ReturnAppended(L: Ledger, v: nat, c: nat, d: nat, vidLine: string)
    requires v < |L.vehicles| && L.vehicles[v].available
    requires c < |L.customers|
    requires FindRental(Confirm(L, v, c, d), Trim(vidLine)) == Some(|L.rentals|)
    ensures var L2 := Confirm(L, v, c, d);
            Return(L2, vidLine) == Step(Returned(v, c), Ledger(
              L.vehicles[v := IncrementUsage(L.vehicles[v])],
              L2.customers,
              L.rentals))
  {
    var L2 := Confirm(L, v, c, d);
    var n := |L.rentals|;
    assert L2.rentals[n] == Rental(v, c, d);
    var vs := L2.vehicles[v := MarkReturned(L2.vehicles[v])];
    assert vs == L.vehicles[v := IncrementUsage(L.vehicles[v])] by {
      assert MarkReturned(IncrementUsage(MarkRented(L.vehicles[v]))) == IncrementUsage(L.vehicles[v]);
    }
    assert RemoveAt(L2.rentals, n) == L.rentals by {
      assert L2.rentals[..n] == L.rentals;
    }
    assert Return(L2, vidLine) == Step(Returned(v, c), L2.(vehicles := vs, rentals := RemoveAt(L2.rentals, n)));
  }

  /** Rent then return by the same id: the vehicle is back, the rental
      list is as before, and only the usage count (and the points) remember
      the rental. */
  lemma ReturnUndoesRent(L: Ledger, nameLine: string, vidLine: string, days: Option<int32>, answerLine: string)
    requires Valid(L)
    requires VehicleIdsDistinct(L.vehicles)
    ensures var r := Rent(L, nameLine, vidLine, days, answerLine);
            r.outcome.Rented? ==>
              var v := r.outcome.vehicle;
              Return(r.ledger, vidLine) == Step(Returned(v, r.outcome.customer), Ledger(
                L.vehicles[v := IncrementUsage(L.vehicles[v])],
                r.ledger.customers,
                L.rentals))
  {
    var r := Rent(L, nameLine, vidLine, days, answerLine);
    if r.outcome.Rented? {
      var cust := GetOrCreateCustomer(L, Trim(nameLine));
      GetOrCreateCustomerPreservesValid(L, Trim(nameLine));
      assert r == RentFor(cust.ledger, cust.outcome, Trim(vidLine), days, answerLine);
      var v := r.outcome.vehicle;
      var d := days.value as nat;
      FindRentalAfterConfirm(cust.ledger, v, cust.outcome, d, Trim(vidLine));
      ReturnAppended(cust.ledger, v, cust.outcome, d, vidLine);
    }
  }

  // ---------------------------------------------------------------------
  // Admin queries
  // ---------------------------------------------------------------------

  /** `maintenanceCheck`: the vehicles, in list order, whose usage count has
      reached the threshold of five, and only those. */
  function MaintenanceDue(L: Ledger): (r: seq<nat>)
    ensures forall i: nat :: i in r <==> i < |L.vehicles| && L.vehicles[i].usageCount >= 5
    ensures forall k, l :: 0 <= k < l < |r| ==> r[k] < r[l]
  {
    IndicesWhere(L.vehicles, v => NeedsMaintenance(v))
  }

  /** Every transition leaves each existing customer in place with at least
      the points they had. */
  lemma LoyaltyNeverDecreases(L: Ledger, nameLine: string, vidLine: string, days: Option<int32>, answerLine: string)
    ensures CustomersExtend(L.customers, Rent(L, nameLine, vidLine, days, answerLine).ledger.customers)
    ensures CustomersExtend(L.customers, Return(L, vidLine).ledger.customers)
    ensures CustomersExtend(L.customers, GetOrCreateCustomer(L, Trim(nameLine)).ledger.customers)
  {
    var cs := GetOrCreateCustomer(L, Trim(nameLine)).ledger.customers;
    assert forall i :: 0 <= i < |L.customers| ==> cs[i] == cs[..|L.customers|][i];
  }
}
