/** The four figures shown in the stats cards above the doctor list: the
    number of records, the number of active ones, the sum of their order
    counts, and the average order count rounded to the nearest integer. */
module DoctorStats {
  import opened Seqs
  import opened Doctors

  datatype Stats = Stats(total: nat, active: nat, orders: nat, average: nat)

  function IsActive(d: Doctor): bool {
    d.status == Active
  }

  /** The number of active records, counted one record at a time: the
      reference the active card is checked against. */
  function CountActive(ds: seq<Doctor>): nat {
    if |ds| == 0 then 0 else (if ds[0].status == Active then 1 else 0) + CountActive(ds[1..])
  }

  /** The number of records carrying `id`, and of those the active ones. */
  function CountWithId(ds: seq<Doctor>, id: string): nat {
    if |ds| == 0 then 0 else (if ds[0].id == id then 1 else 0) + CountWithId(ds[1..], id)
  }

  function CountActiveWithId(ds: seq<Doctor>, id: string): nat {
    if |ds| == 0 then 0
    else (if ds[0].id == id && ds[0].status == Active then 1 else 0) + CountActiveWithId(ds[1..], id)
  }

  /** Filtering the active records keeps exactly `CountActive` of them. */
  lemma {:induction false} ActiveFilterCount(ds: seq<Doctor>)
    ensures |Filter(IsActive, ds)| == CountActive(ds)
  {
    if |ds| > 0 {
      ActiveFilterCount(ds[1..]);
    }
  }

  /** Sum of the order counts (the `reduce` over `totalOrders`). */
  function OrderSum(ds: seq<Doctor>): nat {
    if |ds| == 0 then 0 else ds[0].totalOrders + OrderSum(ds[1..])
  }

  /** `Math.round(sum / n)` for a non-negative sum and a positive count, in
      integer arithmetic: the nearest integer, with halves rounded up; and 0
      for an empty list. */
  function RoundedAverage(sum: nat, n: nat): (r: nat)
    ensures n == 0 ==> r == 0
    ensures n > 0 ==> n * (2 * r - 1) <= 2 * sum < n * (2 * r + 1)
  {
    if n == 0 then 0
    else
      var r := (2 * sum + n) / (2 * n);
      RoundingBounds(2 * sum + n, 2 * n, r);
      r
  }

  lemma RoundingBounds(a: nat, b: nat, q: nat)
    requires b > 0 && q == a / b
    ensures b * q <= a < b * (q + 1)
  {
  }

  /** The stats cards for a list. */
  function StatsOf(ds: seq<Doctor>): (s: Stats)
    ensures s.total == |ds|
    ensures s.active == CountActive(ds)
    ensures s.active <= s.total
    ensures forall d :: d in ds && IsActive(d) ==> s.active > 0
    ensures s.orders == OrderSum(ds)
    ensures |ds| == 0 ==> s.average == 0
    ensures |ds| > 0 ==> |ds| * (2 * s.average - 1) <= 2 * s.orders < |ds| * (2 * s.average + 1)
  {
    var active := Filter(IsActive, ds);
    ActiveFilterCount(ds);
    assert forall d :: d in ds && IsActive(d) ==> d in active;
    Stats(|ds|, |active|, OrderSum(ds), RoundedAverage(OrderSum(ds), |ds|))
  }

  /** The order sum of a concatenation is the sum of the order sums. */
  lemma {:induction false} OrderSumConcat(a: seq<Doctor>, b: seq<Doctor>)
    ensures OrderSum(a + b) == OrderSum(a) + OrderSum(b)
  {
    if |a| == 0 {
      assert a + b == b;
    } else {
      assert (a + b)[1..] == a[1..] + b;
      OrderSumConcat(a[1..], b);
    }
  }

  /** A valid create adds one to the total and, since the new record has no
      orders, leaves the order sum unchanged; the active count grows by one
      exactly when the form's status is active. */
  lemma CreateStats(ds: seq<Doctor>, f: FormData, id: string, joinDate: string)
    requires Valid(f)
    ensures StatsOf(CreateList(ds, f, id, joinDate)).total == |ds| + 1
    ensures StatsOf(CreateList(ds, f, id, joinDate)).orders == OrderSum(ds)
    ensures StatsOf(CreateList(ds, f, id, joinDate)).active
            == StatsOf(ds).active + (if f.status == Active then 1 else 0)
  {
    var d := NewDoctor(f, id, joinDate);
    OrderSumConcat(ds, [d]);
    FilterConcat(IsActive, ds, [d]);
  }

  /** The order sum only depends on the order counts position by position. */
  lemma {:induction false} OrderSumPointwise(a: seq<Doctor>, b: seq<Doctor>)
    requires |a| == |b|
    requires forall i :: 0 <= i < |a| ==> a[i].totalOrders == b[i].totalOrders
    ensures OrderSum(a) == OrderSum(b)
  {
    if |a| > 0 {
      OrderSumPointwise(a[1..], b[1..]);
    }
  }

  /** Toggling a status never changes the total or the order sum. Every
      record with the id changes side, so the active count loses the active
      ones among them and gains the inactive ones. */
  lemma ToggleStats(ds: seq<Doctor>, id: string)
    ensures StatsOf(ToggleStatus(ds, id)).total == StatsOf(ds).total
    ensures StatsOf(ToggleStatus(ds, id)).orders == StatsOf(ds).orders
    ensures StatsOf(ToggleStatus(ds, id)).active + 2 * CountActiveWithId(ds, id)
            == StatsOf(ds).active + CountWithId(ds, id)
  {
    OrderSumPointwise(ToggleStatus(ds, id), ds);
    ToggleActiveCount(ds, id);
  }

  lemma {:induction false} ToggleActiveCount(ds: seq<Doctor>, id: string)
    ensures CountActive(ToggleStatus(ds, id)) + 2 * CountActiveWithId(ds, id)
            == CountActive(ds) + CountWithId(ds, id)
  {
    if |ds| > 0 {
      var r := ToggleStatus(ds, id);
      var t := ToggleStatus(ds[1..], id);
      assert r[1..] == t by {
        assert forall i :: 0 <= i < |t| ==> r[1..][i] == t[i];
      }
      ToggleActiveCount(ds[1..], id);
    }
  }

  lemma SeedOrderSum()
    ensures OrderSum(SeedDoctors) == 105
  {
    var ds := SeedDoctors;
    assert ds[1..][1..][1..] == [];
  }

  lemma SeedActiveCount()
    ensures |Filter(IsActive, SeedDoctors)| == 2
  {
    var ds := SeedDoctors;
    assert ds[1..][1..][1..] == [];
    assert Filter(IsActive, ds[1..][1..]) == [];
  }

  /** On the seed list the cards read 3, 2, 105 and 35. */
  lemma SeedStats()
    ensures StatsOf(SeedDoctors) == Stats(3, 2, 105, 35)
  {
    SeedOrderSum();
    SeedActiveCount();
    assert RoundedAverage(105, 3) == 35;
  }
}
