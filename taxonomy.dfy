/**
 * The closed set of vehicle categories (VEHICLE_CLASSES) and the per-frame
 * counter record that the classifier fills: one counter per category plus a
 * total, as the `counts` dictionary of count_vehicles has.
 */
module Taxonomy {
  import opened Wrappers

  datatype Category = Bus | Car | Jeepney | Motorcycle | PickupTruck | Truck | Van

  /** The detector label of each category, as spelled in VEHICLE_CLASSES. */
  function Label(c: Category): string {
    match c
    case Bus => "bus"
    case Car => "car"
    case Jeepney => "jeepney"
    case Motorcycle => "motorcycle"
    case PickupTruck => "pickup-truck"
    case Truck => "truck"
    case Van => "van"
  }

  /** VEHICLE_CLASSES, in the script's order. */
  const VehicleClasses: seq<string> :=
    ["bus", "car", "jeepney", "motorcycle", "pickup-truck", "truck", "van"]

  /** The category order shared by VEHICLE_CLASSES, the CSV header and the CSV rows. */
  const CategoryOrder: seq<Category> :=
    [Bus, Car, Jeepney, Motorcycle, PickupTruck, Truck, Van]

  /** The position of a category in CategoryOrder. */
  function Ordinal(c: Category): (k: nat)
    ensures k < |CategoryOrder| && CategoryOrder[k] == c
    ensures VehicleClasses[k] == Label(c)
  {
    match c
    case Bus => 0
    case Car => 1
    case Jeepney => 2
    case Motorcycle => 3
    case PickupTruck => 4
    case Truck => 5
    case Van => 6
  }

  /**
   * The counter that a (lower-cased) label increments: the key of the
   * `counts` dictionary it names, if it names a category.
   */
  function CategoryOf(name: string): (r: Option<Category>)
    ensures r.Some? <==> name in VehicleClasses
    ensures r.Some? ==> Label(r.value) == name
  {
    if name == "bus" then Some(Bus)
    else if name == "car" then Some(Car)
    else if name == "jeepney" then Some(Jeepney)
    else if name == "motorcycle" then Some(Motorcycle)
    else if name == "pickup-truck" then Some(PickupTruck)
    else if name == "truck" then Some(Truck)
    else if name == "van" then Some(Van)
    else None
  }

  /** Labels and categories are in one-to-one correspondence. */
  lemma {:induction false} LabelRoundTrip(c: Category)
    ensures CategoryOf(Label(c)) == Some(c)
  {
  }

  /** The `counts` dictionary: a total and one counter per category. */
  datatype Counts = Counts(total: nat, bus: nat, car: nat, jeepney: nat, motorcycle: nat,
                           pickupTruck: nat, truck: nat, van: nat)
  {
    /** counts[Label(c)] */
    function Get(c: Category): nat {
      match c
      case Bus => bus
      case Car => car
      case Jeepney => jeepney
      case Motorcycle => motorcycle
      case PickupTruck => pickupTruck
      case Truck => truck
      case Van => van
    }

    /** counts['total'] += 1 */
    function IncTotal(): (r: Counts)
      ensures r.total == total + 1
      ensures forall c :: r.Get(c) == Get(c)
    {
      this.(total := total + 1)
    }

    /** counts[Label(c)] += 1 */
    function Bump(c: Category): (r: Counts)
      ensures r.total == total
      ensures r.Get(c) == Get(c) + 1
      ensures forall d :: d != c ==> r.Get(d) == Get(d)
    {
      match c
      case Bus => this.(bus := bus + 1)
      case Car => this.(car := car + 1)
      case Jeepney => this.(jeepney := jeepney + 1)
      case Motorcycle => this.(motorcycle := motorcycle + 1)
      case PickupTruck => this.(pickupTruck := pickupTruck + 1)
      case Truck => this.(truck := truck + 1)
      case Van => this.(van := van + 1)
    }

    /** The sum of the seven category counters. */
    function CategorySum(): nat {
      bus + car + jeepney + motorcycle + pickupTruck + truck + van
    }

    /** The tally invariant: the total is the sum of the categories. */
    predicate Consistent() {
      total == CategorySum()
    }

    /** Counter-wise sum of two tallies. */
    function Plus(other: Counts): (r: Counts)
      ensures r.total == total + other.total
      ensures forall c :: r.Get(c) == Get(c) + other.Get(c)
    {
      Counts(total + other.total, bus + other.bus, car + other.car, jeepney + other.jeepney,
             motorcycle + other.motorcycle, pickupTruck + other.pickupTruck,
             truck + other.truck, van + other.van)
    }
  }

  /** The freshly built `counts` dictionary: every counter 0. */
  const Zero: Counts := Counts(0, 0, 0, 0, 0, 0, 0, 0)
}
