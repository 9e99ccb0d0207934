# Booking engine: availability resolver and blocking calendar

This project models the core of a small booking-availability service. The service lists
hotels and apartments. Each apartment and each hotel room type carries a `BookingInfo` with a
price. Hotel rooms belong to room types. A `BlockedDays` calendar marks booking infos, and
optionally one hotel room, as unavailable over a closed interval of days.

Two pieces are modelled:

- **The availability resolver** (`AvailableBookingView.get` and
  `one_room_per_hotel_reducer`), in module `Views` (`views.dfy`). Given a price ceiling and a
  closed window `[check_in, check_out]`, it computes:
  - the affordable apartments that no overlapping block covers;
  - the affordable hotel rooms that no overlapping block names, ordered by room-type price;
  - one room per hotel, namely the first and hence cheapest;
  - the flat list of response items.

  It is a pure function of the tables. The reducer's fold is also written as a method with a
  loop, proved equal to that function.
- **The blocking calendar's write path** (`BlockedDays.clean` and `BlockedDays.save`), in
  module `Models` (`models.dfy`):
  - `FullClean` runs the foreign-key checks, then the four checks of `clean` in source order, then the
    primary-key uniqueness check that `full_clean` runs for a row being added.
  - `Database` is a class that holds the catalog and the stored blocks.
  - Its `Save` method persists a row only when validation passes. It inserts a row under a
    fresh id, or updates the row that has the same id.

  The table invariant is proved to hold after every plain `save()`: no two blocks with the same
  (booking info, hotel room) pair overlap.

Dates are day numbers. Prices are integer cents: the price column holds six digits with two
decimals, so cents are exact. `max_price` is taken as already validated and given in cents.
Tables are sequences of records with integer ids. Following a foreign key means finding the
row with that primary key (`Models.Find`). `WellFormed` states the database constraints:
primary keys (no two rows of a table share an id), uniqueness of both one-to-one links, and
referential integrity.

Three facts of the code shape the model:

- `BookingInfo.listing` and `BookingInfo.hotel_room_type` are two independent nullable
  one-to-one links (`listings/models.py:55-68`). So `BookingInfo` has two `Option` owner
  fields, and an apartment may have no booking info. Such an apartment passes the price
  filter, because `exclude(booking_info__price__gt=…)` drops only dearer apartments. Reading
  its price for the response then raises, which is modelled as `ApartmentWithoutBookingInfo`.
- `HotelRoomType.hotel` is a nullable foreign key (`listings/models.py:27-33`). A room whose
  type has no hotel is grouped under "no hotel" by the reducer, and reading the hotel's
  fields for the response raises. This is modelled as `RoomTypeWithoutHotel`.
- Neither `BlockedDays.clean` nor the view compares dates: nothing checks
  `start_date <= end_date` for a block or `check_in <= check_out` for a query. The model
  does not check either.

## Model

| member | source | states |
|---|---|---|
| Models.FullClean | listings/models.py:91-120 | The reported error is a rule the row violates, and no rule checked earlier is violated. No error means no rule is violated. The verdict is "no error" exactly when three things hold: the row-level rules, no other row of the same (booking info, hotel room) pair overlapping the closed interval, and, for a row being added with an explicit id, no stored row having that id. |
| Models.Upsert | listings/models.py:118-120 | After storing a row, it is present and ids stay unique. Rows with other ids are kept and nothing else appears. A known id is replaced without growing the table; a new id is appended at the end. |
| Models.UpsertKeepsInvariant | listings/models.py:109-120 | Storing a row that passes validation preserves the table invariant: catalog constraints, unique ids, every stored row valid, and no two overlapping blocks with the same (booking info, hotel room). |
| Models.DisjointAfterUpsert | listings/models.py:109-120 | Storing a row that clashes with no row of another id keeps the stored rows pairwise free of clashes. |
| Models.UpsertInvariantNeedsClean | listings/models.py:91-116 | Conversely, a loaded row whose storing keeps the invariant passes validation. |
| Models.FreshIdSameVerdict | listings/models.py:109-115 | The overlap check looks at the id only to exclude the row itself. An unsaved row and the same row under an unused id get the same verdict. |
| Models.StoredRowsPassClean | listings/models.py:115 | A stored row, loaded and re-saved unchanged, passes validation: it never conflicts with itself. |
| Models.Database.constructor | listings/models.py:80-86 | An empty calendar over a well-formed catalog satisfies the invariant. |
| Models.Database.Save | listings/models.py:118-120 | It fails exactly when `FullClean` reports an error, and then returns that error and leaves the table unchanged. Otherwise it stores the row under its own id or a fresh one (insert or update), and the invariant holds afterwards. A row being added, or one without an id, is appended. |
| Views.KeepFirstPerHotel | listings/views.py:11-14 | The fold's result is drawn from its input and holds at most one room per hotel. It covers exactly the hotels of its input. |
| Views.ReducerStep | listings/views.py:11-14 | One call of the reducer keeps those promises when it reads the next row: it appends the row exactly when the row's hotel is new. |
| Views.OneRoomPerHotel | listings/views.py:11-14 | The loop that appends to the accumulator computes `KeepFirstPerHotel`. |
| Views.KeepFirstPositions | listings/views.py:11-14 | The result is the subsequence of the input at increasing positions. Those positions are exactly the first occurrence of each hotel. |
| Views.PositionsStep | listings/views.py:11-14 | One call of the reducer adds the current row's position to the kept positions exactly when the row's hotel was not already kept, and the first-occurrence characterisation carries over. |
| Views.KeptHotelsCover | listings/views.py:11-14 | Every hotel of the input has a row in the fold's result. |
| Views.KeptRowIsCheapest | listings/views.py:40-42 | On price-ordered input, the room kept for a hotel costs no more than any room of that hotel. |
| Views.Insert | listings/views.py:40 | Inserting into a price-ordered sequence keeps it ordered and adds exactly the one row (multiset). |
| Views.SortByPrice | listings/views.py:40 | `order_by(price)` gives a price-ordered permutation of its input. |
| Views.AffordableRoom | listings/views.py:31-32 | A returned row carries the given room, a stored room type that the room names, and a price that a booking info of that type carries and that is at most the ceiling. |
| Views.AffordableRoomIff | listings/views.py:31-32 | Conversely, a room's row is returned exactly when the room names the row's stored room type, that type's booking info carries the row's price, and the price is within the ceiling. |
| Views.AffordableRooms | listings/views.py:31-32 | A row is among the affordable rooms exactly when its room is in the table and qualifies at that price. |
| Views.AvailableRooms | listings/views.py:31-40 | The available rooms are ordered by price. A row is among them exactly when it is affordable and its room is not in the blocked-room set. Every one is priced within the ceiling. |
| Views.SelectedRooms | listings/views.py:40-42 | The chosen rooms are available and from distinct hotels. Every hotel with an available room is represented. Each chosen room is its hotel's cheapest available room. |
| Views.ApartmentItems | listings/views.py:44-53 | It succeeds exactly when every apartment has a booking info. Item i then copies apartment i's fields and its own price. |
| Views.ApartmentItemsFirstFailure | listings/views.py:44-53 | A failure names the first apartment without a booking info: that apartment has none, and every earlier one has one. |
| Views.RoomItems | listings/views.py:54-63 | It succeeds exactly when every selected room's type has a hotel. Item i then copies that hotel's fields and the room type's price. |
| Views.RoomItemsFirstFailure | listings/views.py:54-63 | A failure names the first room whose type has no hotel; every earlier room's type has one. |
| Views.Respond | listings/views.py:44-63 | The response lists one item per apartment, as apartment i's fields with its booking info's price. Then come one item per selected room, as its hotel's fields with the room's price. It succeeds exactly when every one of those reads finds a row. A failure is the apartments' failure if there is one, otherwise the rooms'. |
| Views.RespondWithinCeiling | listings/views.py:30-63 | Items built from affordable apartments and from rooms priced within the ceiling are all priced within it. |
| Views.Resolve | listings/views.py:18-64 | Every item of a successful response is priced at or below `max_price`. The response has one item per available apartment and per selected room, and the apartments come first, as apartment items. |
| Views.RespondOnAvailable | listings/views.py:30-63 | The response built from the available apartments and the selected rooms is within the ceiling and lists the apartments first. |
| Views.ApartmentOfBlockIsOwner | listings/views.py:26-35 | The apartment a block counts against is exactly the apartment listing whose booking info the block is on. |
| Views.ApartmentOfBlockIff | listings/views.py:26-36 | A block counts against an apartment exactly when it is on an apartment listing's booking info. |
| Views.BlockedApartmentIff | listings/views.py:26-35 | An apartment listing is in `BlockedApartments` exactly when a block on its booking info overlaps the window (`end >= check_in` and `start <= check_out`). |
| Views.ApartmentAvailability | listings/views.py:26-39 | An apartment is in `AvailableApartments` exactly when three things hold. It is an apartment listing. It has no booking info priced above the ceiling (`AffordableApartment`). No block on its booking info overlaps the window. |
| Views.BlockedHotelRoomIff | listings/views.py:26-36 | A room is in `BlockedHotelRooms` exactly when a block that overlaps the window, and is not on an apartment's booking, names it. |
| Views.RoomAvailability | listings/views.py:27-40 | A room is available exactly when its room type's booking info is within the ceiling at that price. Also, no overlapping block that is not on an apartment's booking names the room. |
| Views.BlockedRoomNeverSelected | listings/views.py:36-42 | A room named by an overlapping non-apartment block is never chosen. |
| Views.NonOverlappingBlocksIgnored | listings/views.py:27-36 | Blocks whose periods do not meet the window leave the response unchanged. |

## Left out

- HTTP plumbing is not modelled: `APIView`, `Response`, query-parameter extraction and URL routing (`listings/urls.py`).
- Parameter parsing is not modelled: `AvailableBookingSerializer` and its floating-point `max_price`. `Query` holds already validated values, with the price in integer cents.
- `listings/factories.py` is not part of this model. It generates random test data and has no behaviour of its own.
- `listings/tests.py` is not modelled. Its scenario at `listings/tests.py:90-130` is an instance of `Views.SelectedRooms` and `Views.RoomAvailability`, and is not stated separately.
- SQL NULL semantics of `exclude(id__in=subquery)` are not modelled. A block counted as a hotel-room block but with no hotel room would put NULL into that subquery, and in SQL `NOT IN` over a list with NULL excludes every room. The model treats the blocked set as the set of non-null ids.
- Row order the database leaves unspecified is not modelled; the model uses table order. This covers hotel rooms of equal price, which `Views.Insert` keeps in table order as a stable insertion sort: which room of the cheapest type represents a hotel can therefore differ, but its price cannot. It also covers the apartments, which `available_apartments` (`listings/views.py:39`) does not order at all: `Views.Respond` puts apartment i of the table-ordered `Views.AvailableApartments` at item i, while the database may return them in any order.
- Django merges field errors with `clean`'s error into one response. `Models.FullClean` reports only the first failing rule in check order. Any reported error is a genuine violation.
- Concurrency is not modelled: the check-then-insert race between concurrent saves, and transactions.
- `__str__`, `Meta` and `verbose_name` are left out; they are display only.
- Administrative edits to listings, room types, rooms and booking infos, including cascade deletes, are not modelled. `Models.Database.catalog` is a constant.
- `Models.Database.Save`: only a plain `save()` is modelled. The options `save(*args, **kwargs)` passes on are not: `update_fields` (validation checks the whole row, but only the named columns are written, so the stored row can differ from the validated one and break the invariant), `force_insert`, `force_update` and `using`. A null `start_date` or `booking_info` cannot be represented in `Models.BlockedDays`, so the errors the source raises for them are not modelled. Django's `_state.adding` is the parameter `adding`; which instances the caller builds or loads is not modelled. The database's id sequence is modelled by the counter `nextBlockId`. An update with an explicit id not yet in the table inserts under that id, as `save()` does.
- The resolver is read-only by construction, because `Views.Resolve` is a function of the tables. No separate lemma states this.
