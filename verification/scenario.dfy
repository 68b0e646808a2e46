/** The fleet the program starts with, and end-to-end runs of the rent and
    return flows on it. Prices are in cents. */
module Scenario {
  import opened Wrappers
  import opened Text
  import opened Fleet
  import opened RentalSystem

  const SeedVehicles: seq<Vehicle> := [
    NewVehicle("C001", "Toyota", "Camry", Car, 6000),
    NewVehicle("C002", "Honda", "Accord", Car, 7000),
    NewVehicle("B001", "Yamaha", "MT-07", Bike, 4000),
    NewVehicle("B002", "KTM", "Duke", Bike, 4500),
    NewVehicle("T001", "Volvo", "FH16", Truck, 15000)]

  /** The five vehicles registered at startup, in order, with no customer
      and no rental yet. */
  function Seed(): (L: Ledger)
    ensures L == Ledger(SeedVehicles, [], [])
  {
    var L0 := AddVehicle(EmptyLedger, "C001", "Toyota", "Camry", Car, 6000);
    var L1 := AddVehicle(L0, "C002", "Honda", "Accord", Car, 7000);
    var L2 := AddVehicle(L1, "B001", "Yamaha", "MT-07", Bike, 4000);
    var L3 := AddVehicle(L2, "B002", "KTM", "Duke", Bike, 4500);
    AddVehicle(L3, "T001", "Volvo", "FH16", Truck, 15000)
  }

  /** The startup ledger satisfies the invariant. */
  lemma SeedValid()
    ensures Valid(Seed())
  {
  }

  /** Bob, as the first customer, before any rental. */
  const NewBob: Customer := Customer("CUST1", "Bob", 0)

  lemma TrimKeeps(s: string)
    requires |s| > 0 && !IsTrimmable(s[0]) && !IsTrimmable(s[|s| - 1])
    ensures Trim(s) == s
  {
  }

  /** The first lookup of Bob creates customer CUST1 with no points. */
  lemma FirstCustomerIsCust1()
    ensures GetOrCreateCustomer(Seed(), "Bob") == Step(0, Ledger(SeedVehicles, [NewBob], []))
  {
    assert NatToString(1) == "1";
    assert CustomerId(1) == "CUST1";
  }

  lemma LowerYIsYes()
    ensures EqualsIgnoreCase("y", "Y")
  {
    assert CharEqualsIgnoreCase('y', 'Y');
  }

  /** A lower-case "y" confirms. */
  lemma LowerYConfirms()
    ensures Confirmed("y")
  {
    LowerYIsYes();
    TrimKeeps("y");
  }

  lemma C001Selected()
    ensures SelectVehicle(SeedVehicles, "C001") == Some(0)
  {
    assert Rentable(SeedVehicles[0], "C001");
  }

  lemma X999NotRentable(j: nat)
    requires j < |SeedVehicles|
    ensures !Rentable(SeedVehicles[j], "X999")
  {
    assert ToLower(SeedVehicles[j].id[0]) != ToLower('X');
  }

  lemma X999NotSelected()
    ensures SelectVehicle(SeedVehicles, "X999") == None
  {
    forall j | 0 <= j < |SeedVehicles|
      ensures !Rentable(SeedVehicles[j], "X999")
    {
      X999NotRentable(j);
    }
  }

  lemma NotEqualsIgnoreCaseAt(a: string, b: string, k: nat)
    requires k < |a| && k < |b| && ToLower(a[k]) != ToLower(b[k])
    ensures !EqualsIgnoreCase(a, b)
  {
    assert !CharEqualsIgnoreCase(a[k], b[k]);
  }

  /** The startup fleet has no two ids equal ignoring case. */
  lemma SeedIdsDistinct()
    ensures VehicleIdsDistinct(SeedVehicles)
  {
    forall i, j | 0 <= i < j < |SeedVehicles|
      ensures !EqualsIgnoreCase(SeedVehicles[i].id, SeedVehicles[j].id)
    {
      var a := SeedVehicles[i].id;
      var b := SeedVehicles[j].id;
      if a[0] == b[0] {
        NotEqualsIgnoreCaseAt(a, b, 3);
      } else {
        NotEqualsIgnoreCaseAt(a, b, 0);
      }
    }
  }

  /** Bob rents C001 for three days and confirms: $180.00, C001 goes out
      with one use, Bob is created as CUST1 with 30 points, and one rental
      is recorded.
      The typed lines are parameters pinned by `requires` only to keep the
      literals out of the proof's unfolding; the lemma is about exactly
      these inputs. */
  lemma RentC001(name: string, vid: string, answer: string)
    requires name == "Bob" && vid == "C001" && answer == "y"
    ensures var r := Rent(Seed(), name, vid, Some(3), answer);
            && r.outcome == Rented(0, 0, 18000, 30)
            && r.ledger.vehicles == SeedVehicles[0 := IncrementUsage(MarkRented(SeedVehicles[0]))]
            && r.ledger.customers == [Customer("CUST1", "Bob", 30)]
            && r.ledger.rentals == [Rental(0, 0, 3)]
  {
    var L1 := Ledger(SeedVehicles, [NewBob], []);
    assert Trim(name) == name by {
      TrimKeeps(name);
    }
    assert GetOrCreateCustomer(Seed(), Trim(name)) == Step(0, L1) by {
      FirstCustomerIsCust1();
    }
    assert Trim(vid) == vid by {
      TrimKeeps(vid);
    }
    ConfirmC001(L1, vid, answer);
  }

  /** After Bob is registered, selecting C001 for three days and answering
      `y` confirms the rental and credits Bob with 30 points.
      The typed lines are parameters pinned by `requires` only to keep the
      literals out of the proof's unfolding; the lemma is about exactly
      these inputs. */
  lemma ConfirmC001(L1: Ledger, vid: string, answer: string)
    requires L1 == Ledger(SeedVehicles, [NewBob], []) && vid == "C001" && answer == "y"
    ensures RentFor(L1, 0, vid, Some(3), answer) == Step(Rented(0, 0, 18000, 30), Confirm(L1, 0, 0, 3))
    ensures Confirm(L1, 0, 0, 3).customers == [Customer("CUST1", "Bob", 30)]
  {
    C001Selected();
    LowerYConfirms();
    RentForConfirmed(L1, 0, vid, 0, 3, answer);
    assert AddLoyaltyPoints(NewBob, 30) == Customer("CUST1", "Bob", 30);
  }

  /** Returning C001 after that rental brings it back with its use count
      kept and leaves no active rental.
      The typed lines are parameters pinned by `requires` only to keep the
      literals out of the proof's unfolding; the lemma is about exactly
      these inputs. */
  lemma ReturnC001(name: string, vid: string, answer: string)
    requires name == "Bob" && vid == "C001" && answer == "y"
    ensures var r := Rent(Seed(), name, vid, Some(3), answer);
            Return(r.ledger, vid) == Step(Returned(0, 0), Ledger(
              SeedVehicles[0 := IncrementUsage(SeedVehicles[0])], r.ledger.customers, []))
  {
    RentC001(name, vid, answer);
    SeedValid();
    SeedIdsDistinct();
    ReturnUndoesRent(Seed(), name, vid, Some(3), answer);
  }

  /** After Bob is registered, the id X999 selects no vehicle.
      The typed lines are parameters pinned by `requires` only to keep the
      literals out of the proof's unfolding; the lemma is about exactly
      these inputs. */
  lemma SelectingX999Fails(vid: string, answer: string)
    requires vid == "X999"
    ensures var L1 := Ledger(SeedVehicles, [NewBob], []);
            RentFor(L1, 0, vid, Some(3), answer) == Step(InvalidSelection, L1)
  {
    X999NotSelected();
    assert AnyAvailable(SeedVehicles) by {
      assert SeedVehicles[0].available;
    }
  }

  /** An unknown id is refused after the name has been registered.
      The typed lines are parameters pinned by `requires` only to keep the
      literals out of the proof's unfolding; the lemma is about exactly
      these inputs. */
  lemma RentUnknownId(name: string, vid: string, answer: string)
    requires name == "Bob" && vid == "X999"
    ensures Rent(Seed(), name, vid, Some(3), answer) == Step(InvalidSelection, Ledger(SeedVehicles, [NewBob], []))
  {
    var L1 := Ledger(SeedVehicles, [NewBob], []);
    assert Trim(name) == name by {
      TrimKeeps(name);
    }
    assert GetOrCreateCustomer(Seed(), Trim(name)) == Step(0, L1) by {
      FirstCustomerIsCust1();
    }
    assert Trim(vid) == vid by {
      TrimKeeps(vid);
    }
    assert RentFor(L1, 0, vid, Some(3), answer) == Step(InvalidSelection, L1) by {
      SelectingX999Fails(vid, answer);
    }
  }
}
