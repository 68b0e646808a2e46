# Vehicle rental ledger

A Dafny model of the rental ledger at the heart of `carbooking.java`: the
`VehicleRentalSystem` class with its three lists (vehicles, customers,
active rentals), and the `Vehicle` and `Customer` operations it drives.
Each console flow becomes a pure function of the ledger and of the lines
the user would type:

- `addVehicle`
- `getOrCreateCustomer`
- the rent flow (`rentVehicleFlow`)
- the return flow (`returnVehicleFlow`)
- the maintenance check

Each flow returns an outcome naming the branch it took, together with the
new ledger. Rentals refer to vehicles and customers by their position in
the ledger's lists, which stands in for Java's shared object references.

Modules:

- `JavaInt`: Java's 32-bit `int` and its wrap-around.
- `Text`: `String.trim`, `equalsIgnoreCase` and the decimal rendering of an
  `int`.
- `Search`: first-match and all-matches scans over a list.
- `Fleet`: the `Vehicle`, `Customer` and `Rental` records and their small
  state changes.
- `RentalSystem`: the ledger, its invariant and the flows.
- `LoyaltyOverflow`: the loyalty award as the code computes it in `int`
  arithmetic (see Findings).
- `Scenario`: the startup fleet of `CarRentSystem.main` and end-to-end runs
  on it.

The ledger invariant `RentalSystem.Valid` has four parts:

- Every rental points into the lists and lasts at least one day.
- Each vehicle is referred to by exactly one active rental when it is out,
  and by none when it is available.
- Customers are numbered `CUST1`, `CUST2`, ... in creation order.
- No two customers share a name ignoring case.

Every flow preserves it.

Prices are whole cents (`60.0` dollars a day is `6000`). The day count is
what `Integer.parseInt` produced from the trimmed line: `None` stands for
the `NumberFormatException` branch.

The code registers the customer (line 183) before it checks that a
vehicle is free, that the id is valid, that the day count is valid, and
that the user confirmed. A refused or cancelled rental can therefore
still have created the customer; it does not leave the ledger untouched.
`RentRefusalsChangeOnlyCustomers` states exactly what does change. The
flow also refuses early when no vehicle is available at all (lines
193-196), before the id is read.

## Model

| member | source | states |
|---|---|---|
| JavaInt.Wrap32 | carbooking.java:232 | the Java `int` result of an arithmetic operation: congruent to the exact value modulo 2^32, and equal to it when it fits |
| Text.Trim | carbooking.java:178 | `trim` result: a non-empty result starts and ends with a kept char (code above U+0020); the result is empty exactly when every char is at most U+0020 |
| Text.TrimIsInfix | carbooking.java:178 | `trim` keeps the contiguous infix between a run of leading and a run of trailing chars at most U+0020 |
| Text.TrimIdempotent | carbooking.java:178 | trimming an already trimmed line changes nothing |
| Text.CharEqualsIgnoreCase | carbooking.java:166 | the per-char test of `equalsIgnoreCase` (same char, same upper case, or same lower case of the upper case) holds exactly when the lower-case forms agree |
| Text.EqualsIgnoreCase | carbooking.java:166 | `equalsIgnoreCase` holds exactly when the lengths agree and every pair of chars at the same position has the same lower-case form |
| Text.EqualsIgnoreCaseIffFold | carbooking.java:166 | `equalsIgnoreCase` holds exactly when the lower-case foldings of the two strings are equal |
| Text.EqualsIgnoreCaseTransitive | carbooking.java:202 | ids or names equal ignoring case to a common string are equal ignoring case to each other |
| Text.NatToString | carbooking.java:170 | the digits of `customers.size() + 1` in `"CUST" + n`: non-empty, all decimal digits, no leading zero |
| Text.ParseNatToString | carbooking.java:170 | reading the rendered digits back gives the number: the rendering loses nothing |
| Text.NatToStringInjective | carbooking.java:170 | different customer counts render as different digit strings |
| Search.FindFirst | carbooking.java:165-169 | a linear scan with early exit: the index found satisfies the test, no earlier element does, and nothing is found exactly when no element satisfies it |
| Search.IndicesWhere | carbooking.java:293-297 | a scan over the whole list: exactly the indices whose element satisfies the test, in increasing order |
| Fleet.RentReturnRoundTrip | carbooking.java:31-41 | `returnVehicle` after `rent` restores an available vehicle; with `incrementUsage` in between only the usage count differs |
| Fleet.MarkRented | carbooking.java:31-33 | `rent` leaves the vehicle unavailable and changes no other field |
| Fleet.MarkReturned | carbooking.java:35-37 | `returnVehicle` leaves the vehicle available and changes no other field |
| Fleet.IncrementUsage | carbooking.java:39-41 | `incrementUsage` raises the usage count by one and changes no other field |
| Fleet.PriceRecoversRate | carbooking.java:47-49 | for a positive day count, `calculatePrice` divided by the days gives back the daily rate exactly; the price is zero exactly when the rate or the day count is zero |
| Fleet.AddLoyaltyPoints | carbooking.java:120-122 | `addLoyaltyPoints` grows the balance by exactly the award and keeps id and name |
| RentalSystem.Valid | carbooking.java:229-256 | under the ledger invariant a vehicle is out exactly when some active rental refers to it |
| RentalSystem.RentalsDistinctVehicles | carbooking.java:229-256 | under the invariant no vehicle appears in two active rentals |
| RentalSystem.CustomerIdsUnique | carbooking.java:170 | ids of the form `CUST<size+1>` never repeat |
| RentalSystem.AddVehicle | carbooking.java:160-162 | `addVehicle` appends exactly the given vehicle, available and unused, at the end and touches nothing else (no duplicate-id check) |
| RentalSystem.AddVehiclePreservesValid | carbooking.java:160-162 | registering a vehicle keeps the ledger invariant |
| RentalSystem.FindCustomer | carbooking.java:165-169 | the lookup returns the first customer whose name equals the given one ignoring case, or none when there is no such customer |
| RentalSystem.GetOrCreateCustomer | carbooking.java:164-173 | returns the first case-insensitive match and changes nothing when one exists; otherwise appends `Customer("CUST<n+1>", name, 0)` and returns it; vehicles and rentals untouched |
| RentalSystem.GetOrCreateCustomerIdempotent | carbooking.java:164-173 | a second lookup with any case variant of the name returns the same customer and does not grow the list |
| RentalSystem.GetOrCreateCustomerPreservesValid | carbooking.java:164-173 | the lookup keeps the invariant, in particular no two customers share a name ignoring case |
| RentalSystem.SelectVehicle | carbooking.java:200-206 | the first vehicle whose id equals the typed id ignoring case and that is available; none exactly when no vehicle qualifies |
| RentalSystem.ConfirmPreservesValid | carbooking.java:228-232 | renting an available vehicle, counting the use, appending the rental and awarding points keeps the invariant |
| RentalSystem.Confirmed | carbooking.java:227-228 | the trimmed answer confirms exactly when it is `y` or `Y` |
| RentalSystem.Confirm | carbooking.java:229-232 | a confirmation changes exactly the chosen vehicle (out, one more use, same id, brand, model, kind and rate), the rental list (`(vehicle, customer, days)` appended) and the customer's points (plus ten per day, same id and name) |
| RentalSystem.RentFor | carbooking.java:185-236 | the rent flow after the name: only a confirmed rental changes the ledger, and then by the confirmation of the selected vehicle for a positive day count with `10 * days` points |
| RentalSystem.RentForConfirmed | carbooking.java:223-233 | a selectable vehicle, positive days and a "Y" answer yield a rental priced base times days with ten points a day |
| RentalSystem.RentForOutcomeCases | carbooking.java:185-236 | which of the four refusals, the cancellation or the rental the flow ends in, as an if-and-only-if per branch |
| RentalSystem.Rent | carbooking.java:175-237 | the whole rent flow: anything but a confirmed rental leaves vehicles and rentals alone and can only add a customer with no points; no branch lowers a balance |
| RentalSystem.RentOutcomeCases | carbooking.java:175-237 | the outcome of the rent flow as a function of its inputs, one if-and-only-if per outcome |
| RentalSystem.RentNameRequiredChangesNothing | carbooking.java:178-182 | a blank name line is refused and the ledger is unchanged |
| RentalSystem.RentUnavailableRefused | carbooking.java:200-210 | an id whose every match is already out is refused whatever the other answers; vehicles and rentals unchanged |
| RentalSystem.RentRefusalsChangeOnlyCustomers | carbooking.java:183-236 | after the name is accepted, every refusal and the cancellation leave the ledger as `getOrCreateCustomer` left it |
| RentalSystem.RentCancelledPrice | carbooking.java:223-236 | a declined confirmation still quotes the selected vehicle's base price times the day count |
| RentalSystem.RentConfirmedEffect | carbooking.java:223-233 | a confirmed rental quotes base times days and awards `10 * days`; it takes out only the selected vehicle with one more use, appends `(vehicle, customer, days)`, raises only the renter's points, and changes nothing else |
| RentalSystem.RentPreservesValid | carbooking.java:175-237 | every branch of the rent flow keeps the ledger invariant |
| RentalSystem.FindRental | carbooking.java:244-249 | the return lookup finds the first active rental whose vehicle id equals the typed id ignoring case, or none when no rental matches |
| RentalSystem.RemoveAt | carbooking.java:256 | `rentals.remove(found)` drops one element and keeps the others in order |
| RentalSystem.RemoveAtMultiset | carbooking.java:256 | removal takes out exactly that rental: the remaining multiset plus it is the original |
| RentalSystem.Return | carbooking.java:239-258 | the return flow never touches customers; a refused return changes nothing; a successful one removes one rental |
| RentalSystem.ReturnNotRentedChangesNothing | carbooking.java:243-253 | the return is refused exactly when no active rental matches the id, and then the ledger is unchanged |
| RentalSystem.ReturnEffect | carbooking.java:244-256 | a successful return finds the first matching rental, makes its vehicle available, removes exactly that rental and reports its customer |
| RentalSystem.ReturnClearsVehicle | carbooking.java:254-256 | under the invariant the returned vehicle was out, and afterwards no rental refers to it |
| RentalSystem.ReturnPreservesValid | carbooking.java:239-258 | the return flow keeps the ledger invariant |
| RentalSystem.FindRentalAfterConfirm | carbooking.java:244-249 | with distinct ids, the rental a confirmation appended is the one the return lookup finds by the same id |
| RentalSystem.ReturnAppended | carbooking.java:254-256 | returning the just-appended rental restores the vehicle and rental lists, with one more use on the vehicle |
| RentalSystem.ReturnUndoesRent | carbooking.java:175-258 | rent then return by the same id leaves vehicles and rentals as before, except one more use on the rented vehicle |
| RentalSystem.MaintenanceDue | carbooking.java:290-302 | a vehicle is flagged exactly when its usage count is at least five, and the flags come in list order |
| RentalSystem.LoyaltyNeverDecreases | carbooking.java:164-258 | no flow removes, renames or renumbers a customer or lowers a balance |
| LoyaltyOverflow.AwardAsWritten | carbooking.java:232 | the balance after `addLoyaltyPoints(days * 10)` in `int` arithmetic: congruent to `points + 10 * days` modulo 2^32, and equal to it when that sum fits in an `int` |
| LoyaltyOverflow.AwardAsWrittenCanDecrease | carbooking.java:232 | with `int` arithmetic a 214748365-day rental leaves a new customer at -2147483646 points |
| LoyaltyOverflow.AwardAsWrittenNegativeRange | carbooking.java:232 | every day count from 214748365 to 429496729 drives a zero balance negative |
| LoyaltyOverflow.AwardAsWrittenAgreesWithoutOverflow | carbooking.java:120-122 | without overflow the `int` award equals the model's unbounded award |
| LoyaltyOverflow.AwardNeverDecreases | carbooking.java:232 | the unbounded award raises the balance by exactly `10 * days`, never lowering it |
| Scenario.Seed | carbooking.java:364-369 | the five startup vehicles, in order, available and unused, with no customer or rental |
| Scenario.SeedValid | carbooking.java:364-369 | the startup ledger satisfies the invariant |
| Scenario.SeedIdsDistinct | carbooking.java:365-369 | the startup ids are distinct ignoring case |
| Scenario.FirstCustomerIsCust1 | carbooking.java:170-172 | the first customer created is `CUST1` with no points |
| Scenario.LowerYConfirms | carbooking.java:227-228 | a lower-case `y` confirms a rental |
| Scenario.RentC001 | carbooking.java:175-237 | Bob renting C001 for 3 days with `y` pays 18000 cents; C001 goes out with one use; Bob becomes `CUST1` with 30 points; one rental is recorded |
| Scenario.ReturnC001 | carbooking.java:239-258 | returning C001 after that makes it available again, keeps its use, and leaves no active rental |
| Scenario.RentUnknownId | carbooking.java:183-210 | renting X999 is refused as an invalid selection; the only change is that Bob is registered |

## Left out

- Console I/O, menus and messages (lines 176-258, 260-356): the flows take
  the typed lines as parameters and return an outcome instead of printing.
  `showAllVehicles`, `showRentals` and `showCustomers` are plain listings of
  the lists and are not modelled separately.
- `getInfo` formatting (lines 53-57): the subclasses become a `Kind` tag,
  and `Fleet.Label` gives the name each `getType` returns (lines 67-69,
  79-81, 91-93); the formatted description line is not modelled.
- The admin password (lines 158, 340-348): a menu gate with no effect on
  the ledger.
- `Integer.parseInt` itself (line 214): the rent flow receives its result as
  `Option<int32>`, with `None` for a `NumberFormatException`.
- Floating-point prices (lines 10, 47-49, 223): prices are exact whole cents.
  The `double` multiplication and its rounding are not modelled.
- RentalSystem.AddVehicle: always appends a fresh vehicle built from its
  fields (available, unused). Java's `addVehicle` accepts any `Vehicle`
  object, including one already rented or already in the list; with
  rentals referring to vehicles by position, a second reference to the same
  object cannot be expressed. Every call site (lines 365-369) passes a
  `new` vehicle.
- Fleet.AddLoyaltyPoints: the balance is an unbounded natural. Java's
  `loyaltyPoints += pts` on an `int` wraps around; that is modelled
  separately by `LoyaltyOverflow.AwardAsWritten`.
- Fleet.IncrementUsage: the usage count is an unbounded natural;
  `usageCount++` wrapping past 2^31 - 1 is not modelled.
- RentalSystem.Rent: loyalty points and usage counts are unbounded naturals.
  The wrap-around of `loyaltyPoints += pts` and of `days * 10` is modelled
  separately in `LoyaltyOverflow`, and `usageCount++` overflowing is not
  modelled.
- Text.EqualsIgnoreCase: case mapping covers the ASCII letters only. Java's
  full Unicode case mapping is not modelled.
- RentalSystem.ReturnUndoesRent: stated only for ledgers whose vehicle ids
  are distinct ignoring case, as in the startup data. `addVehicle` performs
  no duplicate check, and with duplicate ids the return lookup can find an
  older rental of a different vehicle with the same id.

## Findings

| source | as written | input that shows it | evidently intended | confidence | as-written member | corrected member |
|---|---|---|---|---|---|---|
| carbooking.java:232 | `cust.addLoyaltyPoints(days * 10)` multiplies and adds in 32-bit `int`, so the award wraps for `days >= 214748365` | a new customer confirms a rental of 214748365 days: the award is -2147483646 and the balance becomes negative | the balance grows by `10 * days` and never decreases | not executed | LoyaltyOverflow.AwardAsWrittenCanDecrease | LoyaltyOverflow.AwardNeverDecreases |
