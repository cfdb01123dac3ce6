# Doctor and driver list stores, in Dafny

This project models the two pieces of list logic in a small courier/medical
dashboard written in React: the doctor management page, and the drivers page.
Everything else in that code base renders props or static data.

- **Doctor list store** (`apps/next/pages/doctors.tsx`). The page keeps an
  in-memory list of `Doctor` records, seeded with three doctors. Users can
  search it case-insensitively by name, email or specialization. They can
  create and edit records through a form with required fields, and delete or
  activate/deactivate them from each record's card. Four stats cards summarise the list. Here each handler is a
  pure function from the old list to the new one (module `Doctors`). A page
  state machine (`DoctorPage`) adds the search term and the create/edit form
  (closed, creating, or editing a record). Each step also reports the notice
  the page would `alert`. The stats cards are in `DoctorStats`.
- **Driver availability list** (`apps/next/pages/drivers.tsx`). A list of
  drivers, each with an availability switch, and an "Only Available" switch
  that filters the displayed list (module `Drivers`). The card switch passes
  the card's position in the *displayed* list, but the handler applies it to
  the *full* list. That wiring is modelled as written. With the filter off the
  two positions agree. With it on they can differ, and
  `Drivers.FilteredCardFlipsWrongDriver` shows this on the seed list.

`Seqs` holds the generic `filter`/`map`/`find` and the subsequence relation.
`Text` holds ASCII lower-casing and substring search.

The inputs the page takes from the environment become parameters:
- `confirm`'s answer is the `confirmed` argument of delete.
- The `Date.now()` id and today's date are the `newId`/`today` arguments of submit.
- `alert` becomes the `Notice` a step returns.

Where the behaviour a CRUD store is usually expected to have differs from the code, the model follows the code:
- An update whose record was deleted during the edit session still reports
  success, resets the form and leaves the list unchanged
  (`DoctorPage.UpdateAfterDelete`). It is not rejected as "not found".
- The code does not make ids unique. Delete removes *every* record with the
  id. "Removes exactly one" is proved only under a uniqueness hypothesis
  (`Doctors.DeleteUniqueRemovesOne`).
- A required field counts as filled when it is non-empty. A field holding only
  whitespace passes validation.

## Model

| member | source | states |
|---|---|---|
| Doctors.Search | apps/next/pages/doctors.tsx:68-73 | the visible list holds exactly the records whose lower-cased name, email or specialization includes the lower-cased query, each as often as in the list, and is never longer than the list |
| Doctors.SearchIsSubseq | apps/next/pages/doctors.tsx:68-73 | the search result is a subsequence of the list: relative order is preserved |
| Doctors.SearchEmptyQuery | apps/next/pages/doctors.tsx:68-73 | the empty search term shows the whole list in its order |
| Doctors.SearchIdempotent | apps/next/pages/doctors.tsx:68-73 | searching the search result again with the same term changes nothing |
| Doctors.SearchIgnoresQueryCase | apps/next/pages/doctors.tsx:70-72 | a query and its lower-cased form select the same records |
| Doctors.CardioMatchesCardiology | apps/next/pages/doctors.tsx:70-72 | the query "cardio" matches any record whose specialization is "Cardiology" |
| Doctors.SearchCardioOnSeed | apps/next/pages/doctors.tsx:68-73 | on the seed list, "cardio" finds the cardiologist |
| Doctors.GetById | apps/next/pages/doctors.tsx:109-111 | the lookup is `None` exactly when no record has the id; otherwise it is the first record with that id |
| Doctors.SeedIdsUnique | apps/next/pages/doctors.tsx:18-52 | the three seed records have distinct ids |
| Doctors.Valid | apps/next/pages/doctors.tsx:90-93 | a form passes exactly when none of name, email, phone and specialization is the empty string (address is optional), so the blank form never passes; update repeats the same check at line 130 |
| Doctors.NewDoctor | apps/next/pages/doctors.tsx:96-101 | a created record carries the form's six fields, the supplied id and join date, and zero orders |
| Doctors.CreateList | apps/next/pages/doctors.tsx:90-103 | an invalid form leaves the list unchanged; a valid one appends exactly one record at the end, built from the form, the id and the date with zero orders, and keeps every earlier record |
| Doctors.CreateThenRead | apps/next/pages/doctors.tsx:96-103 | after a valid create with an unused id, looking up that id returns the new record |
| Doctors.CreateKeepsIdsUnique | apps/next/pages/doctors.tsx:96-103 | a create with an unused id keeps ids unique |
| Doctors.Merge | apps/next/pages/doctors.tsx:135-138 | the updated record takes the form's six fields and keeps the edited record's id, join date and order count |
| Doctors.UpdateList | apps/next/pages/doctors.tsx:127-140 | an invalid form leaves the list unchanged; otherwise every record carrying the edited id becomes the merged record and every other record stays in place; length is preserved |
| Doctors.UpdateKeepsIds | apps/next/pages/doctors.tsx:135-140 | every position keeps its id through an update |
| Doctors.UpdateThenRead | apps/next/pages/doctors.tsx:135-140 | after a valid update of a record still in the list, looking up its id returns the merged record |
| Doctors.UpdateOfMissingRecord | apps/next/pages/doctors.tsx:140 | updating a record no longer in the list changes nothing |
| Doctors.UpdateKeepsIdsUnique | apps/next/pages/doctors.tsx:140 | an update keeps ids unique |
| Doctors.DeleteList | apps/next/pages/doctors.tsx:151 | the survivors are exactly the records with another id, with their multiplicities; the id is no longer found; an absent id leaves the list unchanged, a present one shortens it |
| Doctors.DeleteIsSubseq | apps/next/pages/doctors.tsx:151 | the survivors keep their relative order |
| Doctors.DeleteUniqueRemovesOne | apps/next/pages/doctors.tsx:146-151 | with unique ids, deleting a present id removes exactly one record |
| Doctors.DeleteKeepsIdsUnique | apps/next/pages/doctors.tsx:151 | a delete keeps ids unique |
| Doctors.Flip | apps/next/pages/doctors.tsx:161 | toggling always changes the status |
| Doctors.ToggleStatus | apps/next/pages/doctors.tsx:157-165 | length is kept; a record's status changes exactly when it carries the id, and no other field of any record changes |
| Doctors.ToggleTwice | apps/next/pages/doctors.tsx:157-165 | toggling the same id twice restores the list |
| Doctors.ToggleUnknownId | apps/next/pages/doctors.tsx:157-165 | toggling an id no record carries leaves the list unchanged |
| Doctors.ToggleKeepsIdsUnique | apps/next/pages/doctors.tsx:157-165 | a toggle keeps ids unique |
| DoctorStats.RoundedAverage | apps/next/pages/doctors.tsx:355-359 | the average is 0 for an empty list, otherwise the integer nearest to sum/count with halves rounded up |
| DoctorStats.StatsOf | apps/next/pages/doctors.tsx:329-359 | total is the length; active equals the number of records whose status is active, counted one by one; orders is the order sum; average is the rounded mean (0 when empty) |
| DoctorStats.ActiveFilterCount | apps/next/pages/doctors.tsx:337 | filtering the list by active status keeps exactly as many records as are counted active one by one |
| DoctorStats.OrderSumConcat | apps/next/pages/doctors.tsx:346 | the order sum of a concatenation is the sum of the parts' order sums |
| DoctorStats.CreateStats | apps/next/pages/doctors.tsx:329-359 | a valid create adds one to the total, leaves the order sum unchanged, and adds one to the active count exactly when the form's status is active |
| DoctorStats.ToggleStats | apps/next/pages/doctors.tsx:329-359 | a toggle leaves the total and the order sum unchanged; the active count loses the active records with the id and gains the inactive ones |
| DoctorStats.SeedStats | apps/next/pages/doctors.tsx:18-52 | on the seed list the cards read 3, 2, 105 and 35 |
| DoctorPage.ResetForm | apps/next/pages/doctors.tsx:76-87 | the reset form is closed, not editing, with all fields empty and status active |
| DoctorPage.BeginEditForm | apps/next/pages/doctors.tsx:114-125 | beginning an edit opens the form in an editing session for that record, with the record's six editable fields loaded, whatever session came before |
| DoctorPage.HeaderButtonForm | apps/next/pages/doctors.tsx:198-205 | the header button resets an open form to hidden, not editing and empty, and opens a closed one; from a reachable closed state it starts a blank create session |
| DoctorPage.CreateDoctor | apps/next/pages/doctors.tsx:90-106 | an invalid form reports the missing fields and changes nothing, form still open; a valid one applies the create, resets the form to hidden, not editing and empty, and reports the addition |
| DoctorPage.UpdateDoctor | apps/next/pages/doctors.tsx:127-143 | without an edit session nothing happens; an invalid form reports the missing fields and changes nothing; otherwise the update is applied, the edit session ended with the form hidden and empty, and the update reported |
| DoctorPage.DeleteDoctor | apps/next/pages/doctors.tsx:146-154 | an id not found or a declined confirmation changes nothing; otherwise the id's records are removed, the form is untouched and the deletion is reported |
| DoctorPage.ApplyEdit | apps/next/pages/doctors.tsx:236-294 | each of the five text inputs and the two status buttons replaces exactly its own form field and keeps the other five |
| DoctorPage.SubmitForm | apps/next/pages/doctors.tsx:311 | the submit button runs the update handler while an edit session is open and the create handler otherwise |
| DoctorPage.Next | apps/next/pages/doctors.tsx:198-456 | each control runs its handler: the header button the open/reset toggle, Cancel the form reset, an input the matching field edit, a card's edit button an edit session on that record, submit the create/update dispatch, a card's delete and toggle buttons the delete and the status flip, the search box a new term with the list untouched; the search term changes only through the search box; search, delete and toggle never touch the form; form actions never touch the list; only submit and delete produce a notice |
| DoctorPage.NextKeepsFormInv | apps/next/pages/doctors.tsx:76-87 | every action the page offers keeps the invariant that a hidden form is not editing and holds empty fields |
| DoctorPage.ReachableFormInv | apps/next/pages/doctors.tsx:76-87 | the form invariant holds after any sequence of actions |
| DoctorPage.InitialFormInv | apps/next/pages/doctors.tsx:55-66 | the initial page has a closed form that satisfies the invariant |
| DoctorPage.HeaderButtonOpensBlankCreate | apps/next/pages/doctors.tsx:198-205 | on every reachable page with a hidden form, the header button opens a create session with empty fields |
| DoctorPage.ValidSubmitCloses | apps/next/pages/doctors.tsx:310-311 | a submit with valid fields always closes the form and reports an addition or an update |
| DoctorPage.InvalidSubmitKeepsPage | apps/next/pages/doctors.tsx:90-133 | a submit with a required field empty leaves the whole page as it was and reports the missing fields |
| DoctorPage.UpdateAfterDelete | apps/next/pages/doctors.tsx:127-143 | if the edited record was deleted during the session, the update reports success but leaves the list unchanged |
| DoctorPage.SubmitEditThenRead | apps/next/pages/doctors.tsx:135-140 | submitting an edit session and then reading the edited id gives the form's fields with the record's id, join date and order count |
| Drivers.ToggleAvailability | apps/next/pages/drivers.tsx:16-20 | flips availability at the index only; the name, the length and every other entry are unchanged |
| Drivers.ToggleTwice | apps/next/pages/drivers.tsx:16-20 | flipping the same index twice restores the list |
| Drivers.View | apps/next/pages/drivers.tsx:22 | with the filter off the view is the whole list; with it on it holds exactly the available drivers, each as often as in the list |
| Drivers.ViewIsSubseq | apps/next/pages/drivers.tsx:22 | the view preserves the drivers' relative order |
| Drivers.ToggleCard | apps/next/pages/drivers.tsx:53-58 | the switch on displayed card k flips the availability at position k of the full list, which always exists, keeping that driver's name and every other position |
| Drivers.UnfilteredCardFlipsShownDriver | apps/next/pages/drivers.tsx:53-58 | with the filter off, the switch on card k flips the driver shown on card k |
| Drivers.FilteredCardAgreesOnAvailablePrefix | apps/next/pages/drivers.tsx:53-58 | with the filter on, card k shows driver k when drivers 0..k are all available |
| Drivers.FilteredCardFlipsWrongDriver | apps/next/pages/drivers.tsx:53-58 | with the filter on, the switch on the seed list's second card (Carlos) flips Bob instead |
| Drivers.SeedDriversCounts | apps/next/pages/drivers.tsx:6-10 | the seed list has three drivers, two of them available |

## Left out

- Rendering is not modelled: JSX/tamagui layout, colours, the detail-view `alert` text (`viewDoctorDetails`) and `toLocaleDateString`. They compute nothing about the lists.
- `alert` and `confirm` are replaced by the `Notice` result and the `confirmed` argument, because they are browser I/O.
- `Date.now()` and `new Date().toISOString()` become the `newId` and `today` arguments, because they read the clock. No freshness of ids is claimed, since the code guarantees none.
- `toLowerCase` is modelled as ASCII lower-casing. Full Unicode case mapping is out of scope.
- `Math.round` over a float quotient is modelled as integer half-up rounding. Order counts are natural numbers, so the two agree.
- `toggleAvailability` mutates the shared driver object in place, so the seed array and the previous state see the change too. That aliasing, and React's state batching, are not modelled: every handler is a pure list-to-list function.
- Drivers.ToggleAvailability: requires an index inside the list, where the source would throw a `TypeError`. The page only ever passes a displayed card's index, and `Drivers.ToggleCard` proves that such an index is in range.
- `packages/ui/src/DriverCard.tsx`, `packages/ui/src/Navbar.tsx`, `packages/ui/src/OrderCard.tsx`, `packages/app/provider/Provider.tsx`, `apps/next/pages/orders.tsx` and `apps/next/pages/pages-example/index.tsx` are not part of this model. They only render props or static data.
