/** The doctor list of the doctor dashboard page: the record, the seed list,
    the search filter, the lookup by id, and the four list transformations the
    create, update, delete and status-toggle handlers apply. Each is a pure
    function from the old list to the new one; the page-level handlers that
    also move the form and emit notices are in `DoctorPage`. */
module Doctors {
  import opened Seqs
  import Text

  datatype Status = Active | Inactive

  datatype Doctor = Doctor(
    id: string,
    name: string,
    email: string,
    phone: string,
    specialization: string,
    address: string,
    status: Status,
    joinDate: string,
    totalOrders: nat)

  /** The six fields the create/edit form holds; `address` and `status` are optional. */
  datatype FormData = FormData(
    name: string,
    email: string,
    phone: string,
    specialization: string,
    address: string,
    status: Status)

  /** The form as the page initialises and resets it. */
  const EmptyForm := FormData("", "", "", "", "", Active)

  /** The three records the page starts with. */
  const SeedDoctors: seq<Doctor> := [
    Doctor("1", "Dr. Sarah Johnson", "sarah.johnson@hospital.com", "+1 (555) 123-4567",
           "Cardiology", "123 Medical Center Dr, City, State 12345", Active, "2023-01-15", 45),
    Doctor("2", "Dr. Michael Chen", "michael.chen@clinic.com", "+1 (555) 987-6543",
           "Pediatrics", "456 Healthcare Ave, City, State 12345", Active, "2023-03-22", 32),
    Doctor("3", "Dr. Emily Rodriguez", "emily.rodriguez@medical.com", "+1 (555) 456-7890",
           "Dermatology", "789 Wellness Blvd, City, State 12345", Inactive, "2022-11-08", 28)
  ]

  function Flip(s: Status): (r: Status)
    ensures r != s
  {
    if s == Active then Inactive else Active
  }

  /** The required-field check shared by create and update: name, email,
      phone and specialization must be non-empty strings. */
  predicate Valid(f: FormData)
    ensures Valid(f) <==> "" !in [f.name, f.email, f.phone, f.specialization]
    ensures Valid(f) ==> f != EmptyForm
  {
    f.name != "" && f.email != "" && f.phone != "" && f.specialization != ""
  }

  /** The form contents of a record, as loaded when an edit session begins. */
  function FormOf(d: Doctor): FormData {
    FormData(d.name, d.email, d.phone, d.specialization, d.address, d.status)
  }

  /** Whether a record has the given form contents. */
  predicate HasForm(d: Doctor, f: FormData) {
    d.name == f.name && d.email == f.email && d.phone == f.phone
    && d.specialization == f.specialization && d.address == f.address && d.status == f.status
  }

  // ---------------------------------------------------------------- search

  /** A record matches a search query when its lower-cased name, email or
      specialization includes the lower-cased query. The phone and address
      are not searched. */
  predicate Matches(d: Doctor, q: string) {
    var lq := Text.Lower(q);
    Text.Contains(Text.Lower(d.name), lq)
    || Text.Contains(Text.Lower(d.email), lq)
    || Text.Contains(Text.Lower(d.specialization), lq)
  }

  function MatchesQuery(q: string): Doctor -> bool {
    (d: Doctor) => Matches(d, q)
  }

  /** The visible list for a search term. */
  function Search(ds: seq<Doctor>, q: string): (r: seq<Doctor>)
    ensures |r| <= |ds|
    ensures forall d :: d in r <==> d in ds && Matches(d, q)
    ensures forall d :: multiset(r)[d] == if Matches(d, q) then multiset(ds)[d] else 0
  {
    Filter(MatchesQuery(q), ds)
  }

  /** The search result keeps the records in their original relative order. */
  lemma SearchIsSubseq(ds: seq<Doctor>, q: string)
    ensures IsSubseq(Search(ds, q), ds)
  {
    FilterIsSubseq(MatchesQuery(q), ds);
  }

  /** The empty query shows the whole list, in order. */
  lemma SearchEmptyQuery(ds: seq<Doctor>)
    ensures Search(ds, "") == ds
  {
    forall i | 0 <= i < |ds| ensures MatchesQuery("")(ds[i]) {
      Text.ContainsEmpty(Text.Lower(ds[i].name));
    }
    FilterAll(MatchesQuery(""), ds);
  }

  /** Searching the search result again with the same query changes nothing. */
  lemma SearchIdempotent(ds: seq<Doctor>, q: string)
    ensures Search(Search(ds, q), q) == Search(ds, q)
  {
    FilterIdempotent(MatchesQuery(q), ds);
  }

  /** Matching ignores the case of the query: a query and its lower-cased form
      select the same records. */
  lemma SearchIgnoresQueryCase(ds: seq<Doctor>, q: string)
    ensures Search(ds, Text.Lower(q)) == Search(ds, q)
  {
    Text.LowerIdempotent(q);
    forall i | 0 <= i < |ds| ensures MatchesQuery(Text.Lower(q))(ds[i]) == MatchesQuery(q)(ds[i]) {
    }
    FilterSamePredicate(MatchesQuery(Text.Lower(q)), MatchesQuery(q), ds);
  }

  lemma CardiologyContainsCardio()
    ensures Text.Contains(Text.Lower("Cardiology"), "cardio")
  {
    var spec := Text.Lower("Cardiology");
    assert spec[..6] == "cardio" by {
      assert spec[0] == 'c' && spec[1] == 'a' && spec[2] == 'r';
      assert spec[3] == 'd' && spec[4] == 'i' && spec[5] == 'o';
    }
    assert Text.OccursAt(spec, "cardio", 0);
  }

  /** Matching is case-insensitive: the query "cardio" matches a record whose
      specialization is "Cardiology". */
  lemma CardioMatchesCardiology(d: Doctor)
    requires d.specialization == "Cardiology"
    ensures Matches(d, "cardio")
  {
    CardiologyContainsCardio();
    Text.LowerOfLower("cardio");
    assert Text.Contains(Text.Lower(d.specialization), Text.Lower("cardio"));
  }

  /** On the seed list, "cardio" finds the first record. */
  lemma SearchCardioOnSeed()
    ensures SeedDoctors[0] in Search(SeedDoctors, "cardio")
  {
    var d := SeedDoctors[0];
    CardioMatchesCardiology(d);
    assert d in SeedDoctors;
  }

  // ---------------------------------------------------------------- read

  function HasId(id: string): Doctor -> bool {
    (d: Doctor) => d.id == id
  }

  /** The first record with the given id, or `None`. */
  function GetById(ds: seq<Doctor>, id: string): (r: Option<Doctor>)
    ensures r.None? <==> forall i :: 0 <= i < |ds| ==> ds[i].id != id
    ensures r.Some? ==> r.value in ds && r.value.id == id
    ensures r.Some? ==> exists i :: 0 <= i < |ds| && ds[i] == r.value
                           && forall j :: 0 <= j < i ==> ds[j].id != id
  {
    var r := Find(HasId(id), ds);
    assert r.Some? ==> exists i :: 0 <= i < |ds| && ds[i] == r.value && HasId(id)(ds[i])
                          && forall j :: 0 <= j < i ==> !HasId(id)(ds[j]);
    r
  }

  /** No two records share an id. The page does not enforce this (ids come
      from the clock), so it is a hypothesis of the lemmas that need it. */
  predicate UniqueIds(ds: seq<Doctor>) {
    forall i, j :: 0 <= i < j < |ds| ==> ds[i].id != ds[j].id
  }

  lemma SeedIdsUnique()
    ensures UniqueIds(SeedDoctors)
  {
  }

  // ---------------------------------------------------------------- create

  /** The record a valid create appends: the form's six fields, the supplied
      id and join date, and no orders. */
  function NewDoctor(f: FormData, id: string, joinDate: string): (d: Doctor)
    ensures HasForm(d, f) && d.id == id && d.joinDate == joinDate && d.totalOrders == 0
  {
    Doctor(id, f.name, f.email, f.phone, f.specialization, f.address, f.status, joinDate, 0)
  }

  /** The list after a create: unchanged when the form fails validation,
      otherwise the new record appended at the end. */
  function CreateList(ds: seq<Doctor>, f: FormData, id: string, joinDate: string): (r: seq<Doctor>)
    ensures !Valid(f) ==> r == ds
    ensures Valid(f) ==> |r| == |ds| + 1 && r[..|ds|] == ds
                         && HasForm(r[|ds|], f) && r[|ds|].id == id
                         && r[|ds|].joinDate == joinDate && r[|ds|].totalOrders == 0
  {
    if !Valid(f) then ds else ds + [NewDoctor(f, id, joinDate)]
  }

  /** After a valid create with an unused id, reading that id returns the new record. */
  lemma CreateThenRead(ds: seq<Doctor>, f: FormData, id: string, joinDate: string)
    requires Valid(f) && GetById(ds, id).None?
    ensures GetById(CreateList(ds, f, id, joinDate), id) == Some(NewDoctor(f, id, joinDate))
  {
    var r := CreateList(ds, f, id, joinDate);
    assert forall j :: 0 <= j < |ds| ==> r[j] == ds[j];
  }

  /** A create with an unused id keeps the ids unique. */
  lemma CreateKeepsIdsUnique(ds: seq<Doctor>, f: FormData, id: string, joinDate: string)
    requires UniqueIds(ds) && GetById(ds, id).None?
    ensures UniqueIds(CreateList(ds, f, id, joinDate))
  {
    var r := CreateList(ds, f, id, joinDate);
    if Valid(f) {
      assert forall j :: 0 <= j < |ds| ==> r[j] == ds[j];
    }
  }

  // ---------------------------------------------------------------- update

  /** The record an update writes: the form's six fields over the edited
      record, whose id, join date and order count survive. */
  function Merge(e: Doctor, f: FormData): (d: Doctor)
    ensures HasForm(d, f)
    ensures d.id == e.id && d.joinDate == e.joinDate && d.totalOrders == e.totalOrders
  {
    e.(name := f.name, email := f.email, phone := f.phone,
       specialization := f.specialization, address := f.address, status := f.status)
  }

  function ReplaceIfSameId(e: Doctor, updated: Doctor): Doctor -> Doctor {
    (d: Doctor) => if d.id == e.id then updated else d
  }

  /** The list after updating the edited record `e` with form `f`: unchanged
      when the form fails validation; otherwise every record carrying `e`'s id
      becomes the merge and every other record stays where it is. */
  function UpdateList(ds: seq<Doctor>, e: Doctor, f: FormData): (r: seq<Doctor>)
    ensures |r| == |ds|
    ensures !Valid(f) ==> r == ds
    ensures Valid(f) ==> forall i :: 0 <= i < |ds| ==>
              (ds[i].id == e.id ==> r[i] == Merge(e, f)) && (ds[i].id != e.id ==> r[i] == ds[i])
  {
    if !Valid(f) then ds else Map(ReplaceIfSameId(e, Merge(e, f)), ds)
  }

  /** An update keeps every record's id in place. */
  lemma UpdateKeepsIds(ds: seq<Doctor>, e: Doctor, f: FormData)
    ensures forall i :: 0 <= i < |ds| ==> UpdateList(ds, e, f)[i].id == ds[i].id
  {
  }

  /** Reading the edited id after a valid update returns the merged record,
      provided the record is still in the list. */
  lemma UpdateThenRead(ds: seq<Doctor>, e: Doctor, f: FormData)
    requires Valid(f) && GetById(ds, e.id).Some?
    ensures GetById(UpdateList(ds, e, f), e.id) == Some(Merge(e, f))
  {
    var r := UpdateList(ds, e, f);
    var k :| 0 <= k < |ds| && ds[k] == GetById(ds, e.id).value
             && forall j :: 0 <= j < k ==> ds[j].id != e.id;
    assert r[k] == Merge(e, f);
    assert forall j :: 0 <= j < k ==> r[j] == ds[j];
  }

  /** An update whose record has left the list changes nothing. */
  lemma UpdateOfMissingRecord(ds: seq<Doctor>, e: Doctor, f: FormData)
    requires GetById(ds, e.id).None?
    ensures UpdateList(ds, e, f) == ds
  {
  }

  lemma UpdateKeepsIdsUnique(ds: seq<Doctor>, e: Doctor, f: FormData)
    requires UniqueIds(ds)
    ensures UniqueIds(UpdateList(ds, e, f))
  {
    UpdateKeepsIds(ds, e, f);
  }

  // ---------------------------------------------------------------- delete

  function OtherId(id: string): Doctor -> bool {
    (d: Doctor) => d.id != id
  }

  /** The list with every record carrying `id` removed. */
  function DeleteList(ds: seq<Doctor>, id: string): (r: seq<Doctor>)
    ensures forall d :: d in r <==> d in ds && d.id != id
    ensures forall d: Doctor :: d.id != id ==> multiset(r)[d] == multiset(ds)[d]
    ensures GetById(r, id).None?
    ensures GetById(ds, id).None? ==> r == ds
    ensures GetById(ds, id).Some? ==> |r| < |ds|
  {
    DeleteRemovesId(ds, id);
    DeleteAbsentOrShorter(ds, id);
    Filter(OtherId(id), ds)
  }

  lemma DeleteRemovesId(ds: seq<Doctor>, id: string)
    ensures GetById(Filter(OtherId(id), ds), id).None?
  {
    var r := Filter(OtherId(id), ds);
    forall i | 0 <= i < |r| ensures r[i].id != id {
      assert r[i] in r;
    }
  }

  lemma DeleteAbsentOrShorter(ds: seq<Doctor>, id: string)
    ensures GetById(ds, id).None? ==> Filter(OtherId(id), ds) == ds
    ensures GetById(ds, id).Some? ==> |Filter(OtherId(id), ds)| < |ds|
  {
    if GetById(ds, id).None? {
      FilterAll(OtherId(id), ds);
    } else {
      var k :| 0 <= k < |ds| && ds[k].id == id;
      FilterRejectsSome(OtherId(id), ds, k);
    }
  }

  /** The survivors of a delete keep their relative order. */
  lemma DeleteIsSubseq(ds: seq<Doctor>, id: string)
    ensures IsSubseq(DeleteList(ds, id), ds)
  {
    FilterIsSubseq(OtherId(id), ds);
  }

  /** With unique ids, deleting a present id removes exactly one record. */
  lemma DeleteUniqueRemovesOne(ds: seq<Doctor>, id: string)
    requires UniqueIds(ds) && GetById(ds, id).Some?
    ensures |DeleteList(ds, id)| == |ds| - 1
  {
    var k :| 0 <= k < |ds| && ds[k].id == id;
    FilterMissesOne(OtherId(id), ds, k);
  }

  /** Deleting keeps ids unique. */
  lemma DeleteKeepsIdsUnique(ds: seq<Doctor>, id: string)
    requires UniqueIds(ds)
    ensures UniqueIds(DeleteList(ds, id))
  {
    FilterKeepsIdsUnique(OtherId(id), ds);
  }

  /** Putting a record with a fresh id in front of a list with unique ids keeps them unique. */
  lemma ConsKeepsIdsUnique(d: Doctor, ds: seq<Doctor>)
    requires UniqueIds(ds)
    requires forall j :: 0 <= j < |ds| ==> ds[j].id != d.id
    ensures UniqueIds([d] + ds)
  {
    var r := [d] + ds;
    forall i, j | 0 <= i < j < |r| ensures r[i].id != r[j].id {
      assert r[j] == ds[j - 1];
      if i > 0 { assert r[i] == ds[i - 1]; }
    }
  }

  lemma TailKeepsIdsUnique(ds: seq<Doctor>)
    requires |ds| > 0 && UniqueIds(ds)
    ensures UniqueIds(ds[1..])
    ensures forall d :: d in ds[1..] ==> d.id != ds[0].id
  {
    var rest := ds[1..];
    forall i, j | 0 <= i < j < |rest| ensures rest[i].id != rest[j].id {
      assert rest[i] == ds[i + 1] && rest[j] == ds[j + 1];
    }
    forall d | d in rest ensures d.id != ds[0].id {
      var m :| 0 <= m < |rest| && rest[m] == d;
      assert ds[m + 1] == d;
    }
  }

  lemma {:induction false} FilterKeepsIdsUnique(f: Doctor -> bool, ds: seq<Doctor>)
    requires UniqueIds(ds)
    ensures UniqueIds(Filter(f, ds))
  {
    if |ds| > 0 {
      TailKeepsIdsUnique(ds);
      FilterKeepsIdsUnique(f, ds[1..]);
      var tail := Filter(f, ds[1..]);
      if f(ds[0]) {
        assert forall j :: 0 <= j < |tail| ==> tail[j] in ds[1..];
        ConsKeepsIdsUnique(ds[0], tail);
      }
    }
  }

  // ---------------------------------------------------------------- toggle

  function FlipIfId(id: string): Doctor -> Doctor {
    (d: Doctor) => if d.id == id then d.(status := Flip(d.status)) else d
  }

  /** The list after toggling `id`: records with that id have their status
      flipped; nothing else about any record, nor the length, changes. */
  function ToggleStatus(ds: seq<Doctor>, id: string): (r: seq<Doctor>)
    ensures |r| == |ds|
    ensures forall i :: 0 <= i < |ds| ==> r[i] == ds[i].(status := r[i].status)
    ensures forall i :: 0 <= i < |ds| ==> (r[i].status != ds[i].status <==> ds[i].id == id)
  {
    Map(FlipIfId(id), ds)
  }

  /** Toggling the same id twice restores the list. */
  lemma ToggleTwice(ds: seq<Doctor>, id: string)
    ensures ToggleStatus(ToggleStatus(ds, id), id) == ds
  {
    var r := ToggleStatus(ToggleStatus(ds, id), id);
    assert forall i :: 0 <= i < |ds| ==> r[i] == ds[i];
  }

  /** Toggling an id no record carries changes nothing. */
  lemma ToggleUnknownId(ds: seq<Doctor>, id: string)
    requires GetById(ds, id).None?
    ensures ToggleStatus(ds, id) == ds
  {
    var r := ToggleStatus(ds, id);
    assert forall i :: 0 <= i < |ds| ==> r[i] == ds[i];
  }

  lemma ToggleKeepsIdsUnique(ds: seq<Doctor>, id: string)
    requires UniqueIds(ds)
    ensures UniqueIds(ToggleStatus(ds, id))
  {
  }
}
