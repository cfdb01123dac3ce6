/** The drivers page: a list of drivers with an availability switch on each
    card and an "Only Available" switch that filters the list. The card's
    switch passes the card's position in the displayed list, which the
    handler applies to the full list; that wiring is modelled as written. */
module Drivers {
  import opened Seqs

  datatype Driver = Driver(name: string, available: bool)

  /** The three drivers the page starts with. */
  const SeedDrivers: seq<Driver> := [
    Driver("Alice", true),
    Driver("Bob", false),
    Driver("Carlos", true)
  ]

  function IsAvailable(d: Driver): bool {
    d.available
  }

  /** `toggleAvailability(index)`: flips the availability of the driver at
      `index` of the full list; the name, the length and every other entry
      stay as they were. */
  function ToggleAvailability(ds: seq<Driver>, index: nat): (r: seq<Driver>)
    requires index < |ds|
    ensures |r| == |ds|
    ensures r[index].name == ds[index].name && r[index].available == !ds[index].available
    ensures forall j :: 0 <= j < |ds| && j != index ==> r[j] == ds[j]
  {
    ds[index := ds[index].(available := !ds[index].available)]
  }

  /** Flipping the same position twice restores the list. */
  lemma ToggleTwice(ds: seq<Driver>, index: nat)
    requires index < |ds|
    ensures ToggleAvailability(ToggleAvailability(ds, index), index) == ds
  {
    var r := ToggleAvailability(ToggleAvailability(ds, index), index);
    assert forall j :: 0 <= j < |ds| ==> r[j] == ds[j];
  }

  /** `filteredDrivers`: the displayed list. With the switch off it is the
      whole list; with it on, exactly the available drivers, in order. */
  function View(ds: seq<Driver>, onlyAvailable: bool): (r: seq<Driver>)
    ensures |r| <= |ds|
    ensures !onlyAvailable ==> r == ds
    ensures onlyAvailable ==> forall d :: d in r <==> d in ds && d.available
    ensures onlyAvailable ==> forall d :: multiset(r)[d] == if d.available then multiset(ds)[d] else 0
  {
    if onlyAvailable then Filter(IsAvailable, ds) else ds
  }

  /** The displayed list keeps the drivers' relative order. */
  lemma ViewIsSubseq(ds: seq<Driver>, onlyAvailable: bool)
    ensures IsSubseq(View(ds, onlyAvailable), ds)
  {
    if onlyAvailable {
      FilterIsSubseq(IsAvailable, ds);
    } else {
      SubseqRefl(ds);
    }
  }

  /** Pressing the switch on card `k` of the displayed list: the handler
      receives `k` and flips position `k` of the full list. */
  function ToggleCard(ds: seq<Driver>, onlyAvailable: bool, k: nat): (r: seq<Driver>)
    requires k < |View(ds, onlyAvailable)|
    ensures k < |ds| && |r| == |ds|
    ensures r[k] == ds[k].(available := !ds[k].available)
    ensures forall j :: 0 <= j < |ds| && j != k ==> r[j] == ds[j]
  {
    ToggleAvailability(ds, k)
  }

  /** With the filter off, card `k` shows driver `k`, so the switch flips the
      driver on the card pressed, and the new view shows the flip at `k`. */
  lemma UnfilteredCardFlipsShownDriver(ds: seq<Driver>, k: nat)
    requires k < |View(ds, false)|
    ensures View(ToggleCard(ds, false, k), false)[k].name == View(ds, false)[k].name
    ensures View(ToggleCard(ds, false, k), false)[k].available == !View(ds, false)[k].available
  {
  }

  /** With the filter on, card `k` still shows driver `k` as long as nobody
      before position `k`, nor `k` itself, is unavailable. */
  lemma FilteredCardAgreesOnAvailablePrefix(ds: seq<Driver>, k: nat)
    requires k < |ds|
    requires forall j :: 0 <= j <= k ==> ds[j].available
    ensures k < |View(ds, true)| && View(ds, true)[k] == ds[k]
  {
    FilterKeepsPassingPrefix(IsAvailable, ds, k);
  }

  /** With the filter on, the switch on the second card of the seed list
      (Carlos) flips Bob, who is not displayed, and leaves Carlos available. */
  lemma FilteredCardFlipsWrongDriver()
    ensures View(SeedDrivers, true) == [Driver("Alice", true), Driver("Carlos", true)]
    ensures ToggleCard(SeedDrivers, true, 1)
            == [Driver("Alice", true), Driver("Bob", true), Driver("Carlos", true)]
  {
    assert SeedDrivers[1..][1..][1..] == [];
  }

  /** The seed list has three drivers, two of them available. */
  lemma SeedDriversCounts()
    ensures |SeedDrivers| == 3 && |View(SeedDrivers, true)| == 2
  {
    FilteredCardFlipsWrongDriver();
  }
}
