/** The entities of the booking engine and the write path of the blocking calendar:
    `BlockedDays.clean` (four ordered checks) and `BlockedDays.save` (persist only when
    validation passes). Dates are day numbers, prices are integer cents (the price column
    holds at most six digits with two decimals, so cents are exact). */
module Models {

  datatype Option<T> = None | Some(value: T)

  datatype Result<T, E> = Success(value: T) | Failure(error: E)

  type Id = int
  type Day = int
  type Cents = int

  datatype ListingType = Hotel | Apartment

  datatype Listing = Listing(id: Id, listingType: ListingType, title: string, country: string, city: string)

  /** `hotel` is a nullable foreign key to a listing. */
  datatype HotelRoomType = HotelRoomType(id: Id, hotel: Option<Id>, title: string)

  /** `roomType` is a nullable foreign key to a room type. */
  datatype HotelRoom = HotelRoom(id: Id, roomType: Option<Id>, roomNumber: string)

  /** Owned through two independent nullable one-to-one links: a listing or a room type. */
  datatype BookingInfo = BookingInfo(id: Id, listing: Option<Id>, roomType: Option<Id>, price: Cents)

  /** A closed interval [start, end] of blocked days. `id` is None until the row is saved;
      `end` is None when the caller left it out (validation rejects that). */
  datatype BlockedDays = BlockedDays(id: Option<Id>, bookingInfo: Id, hotelRoom: Option<Id>, start: Day, end: Option<Day>)

  /** The tables that only the administration writes: everything except the blocking calendar. */
  datatype Catalog = Catalog(listings: seq<Listing>, roomTypes: seq<HotelRoomType>,
                             rooms: seq<HotelRoom>, bookingInfos: seq<BookingInfo>)

  // ---------------------------------------------------------------------------------------
  // Lookups: reading a foreign key follows it to the row with that primary key.

  /** The first element of `s` satisfying `p`. */
  function Find<T>(s: seq<T>, p: T -> bool): (r: Option<T>)
    ensures r.Some? ==> r.value in s && p(r.value)
    ensures r.Some? ==> exists i :: 0 <= i < |s| && s[i] == r.value && forall k :: 0 <= k < i ==> !p(s[k])
    ensures r.None? ==> forall x :: x in s ==> !p(x)
  {
    if s == [] then None
    else if p(s[0]) then Some(s[0])
    else Find(s[1..], p)
  }

  /** The elements of `s` satisfying `p`. */
  function Filter<T>(s: seq<T>, p: T -> bool): (r: seq<T>)
    ensures |r| <= |s|
    ensures forall x :: x in r ==> x in s && p(x)
    ensures forall x :: x in s && p(x) ==> x in r
  {
    if s == [] then []
    else if p(s[0]) then [s[0]] + Filter(s[1..], p)
    else Filter(s[1..], p)
  }

  function ListingById(listings: seq<Listing>, id: Id): Option<Listing>
  {
    Find(listings, (l: Listing) => l.id == id)
  }

  function RoomTypeById(roomTypes: seq<HotelRoomType>, id: Id): Option<HotelRoomType>
  {
    Find(roomTypes, (t: HotelRoomType) => t.id == id)
  }

  function RoomById(rooms: seq<HotelRoom>, id: Id): Option<HotelRoom>
  {
    Find(rooms, (r: HotelRoom) => r.id == id)
  }

  function BookingInfoById(infos: seq<BookingInfo>, id: Id): Option<BookingInfo>
  {
    Find(infos, (bi: BookingInfo) => bi.id == id)
  }

  /** `listing.booking_info`: the reverse side of the one-to-one link. */
  function BookingInfoOfListing(infos: seq<BookingInfo>, listing: Id): Option<BookingInfo>
  {
    Find(infos, (bi: BookingInfo) => bi.listing == Some(listing))
  }

  /** `room_type.booking_info`. */
  function BookingInfoOfRoomType(infos: seq<BookingInfo>, roomType: Id): Option<BookingInfo>
  {
    Find(infos, (bi: BookingInfo) => bi.roomType == Some(roomType))
  }

  predicate IsApartment(c: Catalog, listing: Id)
  {
    match ListingById(c.listings, listing)
    case Some(l) => l.listingType == Apartment
    case None => false
  }

  /** The database constraints of the catalog: primary keys, the uniqueness of both
      one-to-one links, and referential integrity of every foreign key. */
  ghost predicate WellFormed(c: Catalog)
  {
    && (forall i, j :: 0 <= i < j < |c.listings| ==> c.listings[i].id != c.listings[j].id)
    && (forall i, j :: 0 <= i < j < |c.roomTypes| ==> c.roomTypes[i].id != c.roomTypes[j].id)
    && (forall i, j :: 0 <= i < j < |c.rooms| ==> c.rooms[i].id != c.rooms[j].id)
    && (forall i, j :: 0 <= i < j < |c.bookingInfos| ==> c.bookingInfos[i].id != c.bookingInfos[j].id)
    && (forall a, b :: a in c.bookingInfos && b in c.bookingInfos && a.listing.Some? && a.listing == b.listing ==> a == b)
    && (forall a, b :: a in c.bookingInfos && b in c.bookingInfos && a.roomType.Some? && a.roomType == b.roomType ==> a == b)
    && (forall t :: t in c.roomTypes && t.hotel.Some? ==> ListingById(c.listings, t.hotel.value).Some?)
    && (forall r :: r in c.rooms && r.roomType.Some? ==> RoomTypeById(c.roomTypes, r.roomType.value).Some?)
    && (forall bi :: bi in c.bookingInfos && bi.listing.Some? ==> ListingById(c.listings, bi.listing.value).Some?)
    && (forall bi :: bi in c.bookingInfos && bi.roomType.Some? ==> RoomTypeById(c.roomTypes, bi.roomType.value).Some?)
  }

  // ---------------------------------------------------------------------------------------
  // Overlap of closed intervals, shared by validation and by the availability query.

  /** The block's interval meets [from, to]: `end_date >= from and start_date <= to`.
      A missing end date never matches, as a NULL column never satisfies a comparison. */
  predicate Overlaps(b: BlockedDays, from: Day, to: Day)
  {
    b.end.Some? && b.end.value >= from && b.start <= to
  }

  predicate SameKey(a: BlockedDays, b: BlockedDays)
  {
    a.bookingInfo == b.bookingInfo && a.hotelRoom == b.hotelRoom
  }

  /** Row `e` of the table blocks the interval that `b` asks for, on the same
      (booking info, hotel room) pair. */
  predicate Clash(e: BlockedDays, b: BlockedDays)
  {
    SameKey(e, b) && b.end.Some? && Overlaps(e, b.start, b.end.value)
  }

  /** Some other row (a different id; an unsaved row excludes nothing) clashes with `b`. */
  predicate Conflicts(blocks: seq<BlockedDays>, b: BlockedDays)
  {
    exists e :: e in blocks && e.id != b.id && Clash(e, b)
  }

  lemma ClashSymmetric(a: BlockedDays, b: BlockedDays)
    requires a.end.Some? && b.end.Some?
    ensures Clash(a, b) <==> Clash(b, a)
  {
  }

  // ---------------------------------------------------------------------------------------
  // Validation.

  datatype CleanError =
    | UnknownBookingInfo   // field validation: booking_info names no row
    | UnknownHotelRoom     // field validation: hotel_room names no row
    | RoomOnApartment      // "hotel_room": a room on an apartment's booking
    | EndDateMissing       // "end_date": required
    | RoomNotOfRoomType    // "hotel_room": not a room of the booking's room type
    | Overlapping          // non-field error: the pair is already blocked for the period
    | DuplicateId          // uniqueness check: a row being added reuses a stored id

  /** The position of each check in the order validation runs them. */
  function Rank(e: CleanError): nat
  {
    match e
    case UnknownBookingInfo => 0
    case UnknownHotelRoom => 1
    case RoomOnApartment => 2
    case EndDateMissing => 3
    case RoomNotOfRoomType => 4
    case Overlapping => 5
    case DuplicateId => 6
  }

  /** `self.hotel_room in booking_info.hotel_room_type.hotel_rooms.all()`; no room is in no set. */
  predicate RoomOfType(c: Catalog, room: Option<Id>, roomType: Id)
  {
    room.Some? && exists r :: r in c.rooms && r.id == room.value && r.roomType == Some(roomType)
  }

  /** The primary-key uniqueness check that `full_clean` runs after `clean`: it applies only
      to a row being added (not loaded from the table) that carries an explicit id. */
  predicate IdTaken(blocks: seq<BlockedDays>, b: BlockedDays, adding: bool)
  {
    adding && b.id.Some? && exists x :: x in blocks && x.id == b.id
  }

  /** Each rule on its own, independent of the order in which they are checked. */
  predicate Violates(c: Catalog, blocks: seq<BlockedDays>, b: BlockedDays, adding: bool, e: CleanError)
  {
    var info := BookingInfoById(c.bookingInfos, b.bookingInfo);
    match e
    case UnknownBookingInfo => info.None?
    case UnknownHotelRoom => b.hotelRoom.Some? && RoomById(c.rooms, b.hotelRoom.value).None?
    case RoomOnApartment =>
      info.Some? && info.value.listing.Some? && IsApartment(c, info.value.listing.value) && b.hotelRoom.Some?
    case EndDateMissing => b.end.None?
    case RoomNotOfRoomType =>
      info.Some? && info.value.roomType.Some? && !RoomOfType(c, b.hotelRoom, info.value.roomType.value)
    case Overlapping => Conflicts(blocks, b)
    case DuplicateId => IdTaken(blocks, b, adding)
  }

  /** The rules that concern the row alone (all but the overlap rule). */
  predicate RowRules(c: Catalog, b: BlockedDays)
  {
    && !Violates(c, [], b, false, UnknownBookingInfo)
    && !Violates(c, [], b, false, UnknownHotelRoom)
    && !Violates(c, [], b, false, RoomOnApartment)
    && !Violates(c, [], b, false, EndDateMissing)
    && !Violates(c, [], b, false, RoomNotOfRoomType)
  }

  /** `BlockedDays.clean`: the four checks in source order, the first failure decides. */
  function Clean(c: Catalog, blocks: seq<BlockedDays>, info: BookingInfo, b: BlockedDays): Option<CleanError>
  {
    if info.listing.Some? && IsApartment(c, info.listing.value) && b.hotelRoom.Some? then
      Some(RoomOnApartment)
    else if b.end.None? then
      Some(EndDateMissing)
    else if info.roomType.Some? && !RoomOfType(c, b.hotelRoom, info.roomType.value) then
      Some(RoomNotOfRoomType)
    else if Conflicts(blocks, b) then
      Some(Overlapping)
    else
      None
  }

  /** `full_clean` as `save` runs it: the foreign keys must name rows, then `clean`, then the
      primary-key uniqueness check. `adding` tells a new instance from one loaded from the
      table. The reported error is the first rule, in check order, that the row violates. */
  function FullClean(c: Catalog, blocks: seq<BlockedDays>, b: BlockedDays, adding: bool): (r: Option<CleanError>)
    ensures r.None? ==> forall e :: !Violates(c, blocks, b, adding, e)
    ensures r.Some? ==> Violates(c, blocks, b, adding, r.value)
    ensures r.Some? ==> forall e :: Rank(e) < Rank(r.value) ==> !Violates(c, blocks, b, adding, e)
    ensures r.None? <==> RowRules(c, b) && !Conflicts(blocks, b) && !IdTaken(blocks, b, adding)
  {
    match BookingInfoById(c.bookingInfos, b.bookingInfo)
    case None => Some(UnknownBookingInfo)
    case Some(info) =>
      if b.hotelRoom.Some? && RoomById(c.rooms, b.hotelRoom.value).None? then Some(UnknownHotelRoom)
      else match Clean(c, blocks, info, b)
        case Some(e) => Some(e)
        case None => if IdTaken(blocks, b, adding) then Some(DuplicateId) else None
  }

  // ---------------------------------------------------------------------------------------
  // The stored table and its invariant.

  predicate UniqueIds(blocks: seq<BlockedDays>)
  {
    forall i, j :: 0 <= i < j < |blocks| ==> blocks[i].id != blocks[j].id
  }

  /** No two rows of the same (booking info, hotel room) pair overlap. */
  predicate Disjoint(blocks: seq<BlockedDays>)
  {
    forall i, j :: 0 <= i < |blocks| && 0 <= j < |blocks| && i != j ==> !Clash(blocks[i], blocks[j])
  }

  /** What every state of the calendar reached by plain saves satisfies. */
  ghost predicate Invariant(c: Catalog, blocks: seq<BlockedDays>)
  {
    && WellFormed(c)
    && UniqueIds(blocks)
    && (forall b :: b in blocks ==> b.id.Some? && RowRules(c, b))
    && Disjoint(blocks)
  }

  /** The row with the same id is replaced in place (an UPDATE); a new id is appended (an INSERT). */
  function Upsert(blocks: seq<BlockedDays>, row: BlockedDays): (r: seq<BlockedDays>)
    requires UniqueIds(blocks)
    ensures row in r
    ensures forall x :: x in r ==> x == row || (x in blocks && x.id != row.id)
    ensures forall x :: x in blocks && x.id != row.id ==> x in r
    ensures UniqueIds(r)
    ensures (exists x :: x in blocks && x.id == row.id) ==> |r| == |blocks|
    ensures (forall x :: x in blocks ==> x.id != row.id) ==> r == blocks + [row]
  {
    if blocks == [] then [row]
    else if blocks[0].id == row.id then [row] + blocks[1..]
    else [blocks[0]] + Upsert(blocks[1..], row)
  }

  /** Storing a row that passes validation keeps the invariant. `row` is `b` with the id it
      is stored under: its own, or one that no row has. */
  lemma UpsertKeepsInvariant(c: Catalog, blocks: seq<BlockedDays>, row: BlockedDays, adding: bool)
    requires Invariant(c, blocks)
    requires row.id.Some? && FullClean(c, blocks, row, adding).None?
    ensures Invariant(c, Upsert(blocks, row))
  {
    assert RowRules(c, row) && !Conflicts(blocks, row);
    DisjointAfterUpsert(blocks, row);
  }

  /** Storing a row that clashes with no other row keeps the rows pairwise disjoint. */
  lemma DisjointAfterUpsert(blocks: seq<BlockedDays>, row: BlockedDays)
    requires UniqueIds(blocks) && Disjoint(blocks)
    requires forall x :: x in blocks ==> x.end.Some?
    requires row.end.Some? && !Conflicts(blocks, row)
    ensures Disjoint(Upsert(blocks, row))
  {
    var r := Upsert(blocks, row);
    forall i, j | 0 <= i < |r| && 0 <= j < |r| && i != j
      ensures !Clash(r[i], r[j])
    {
      assert r[i].id != r[j].id;
      if r[i] == row {
        ClashSymmetric(r[i], r[j]);
      } else if r[j] != row {
        var p :| 0 <= p < |blocks| && blocks[p] == r[i];
        var q :| 0 <= q < |blocks| && blocks[q] == r[j];
      }
    }
  }

  /** Conversely, an edit of a loaded row whose storing would keep the invariant passes
      validation, so `clean` rejects only rows that would break it. */
  lemma UpsertInvariantNeedsClean(c: Catalog, blocks: seq<BlockedDays>, row: BlockedDays)
    requires Invariant(c, blocks)
    requires row.id.Some? && Invariant(c, Upsert(blocks, row))
    ensures FullClean(c, blocks, row, false).None?
  {
  }

  /** Validation does not look at the id except to skip the row's own: an unsaved row and the
      same row under an id no stored row has get the same verdict. */
  lemma FreshIdSameVerdict(c: Catalog, blocks: seq<BlockedDays>, b: BlockedDays, id: Id, adding: bool)
    requires b.id.None? && forall x :: x in blocks ==> x.id.Some? && x.id != Some(id)
    ensures FullClean(c, blocks, b, adding) == FullClean(c, blocks, b.(id := Some(id)), adding)
  {
    var row := b.(id := Some(id));
    assert Conflicts(blocks, b) <==> Conflicts(blocks, row) by {
      if Conflicts(blocks, b) {
        var e :| e in blocks && e.id != b.id && Clash(e, b);
        assert e.id != row.id && Clash(e, row);
      }
    }
  }

  /** A stored row loaded and re-saved unchanged passes validation: the overlap check skips
      its own id. */
  lemma StoredRowsPassClean(c: Catalog, blocks: seq<BlockedDays>, b: BlockedDays)
    requires Invariant(c, blocks)
    requires b in blocks
    ensures FullClean(c, blocks, b, false).None?
  {
  }

  // ---------------------------------------------------------------------------------------

  /** The database as the write path sees it: a fixed catalog and the blocking calendar. */
  class Database {
    const catalog: Catalog
    var blocks: seq<BlockedDays>
    /** The primary-key sequence: the id the next inserted row receives. */
    var nextBlockId: Id

    ghost predicate Valid()
      reads this
    {
      && Invariant(catalog, blocks)
      && (forall b :: b in blocks ==> b.id.Some? && b.id.value < nextBlockId)
    }

    constructor (catalog: Catalog)
      requires WellFormed(catalog)
      ensures Valid()
      ensures this.catalog == catalog && blocks == []
    {
      this.catalog := catalog;
      blocks := [];
      nextBlockId := 1;
    }

    /** `BlockedDays.save`: run `full_clean`, then insert the row or update the row with its
        id. `adding` is true for a new instance and false for one loaded from the table.
        A rejected row leaves the table as it was; an added row is always inserted. */
    method Save(b: BlockedDays, adding: bool) returns (r: Result<BlockedDays, CleanError>)
      requires Valid()
      modifies this
      ensures Valid()
      ensures r.Failure? <==> FullClean(catalog, old(blocks), b, adding).Some?
      ensures r.Failure? ==> FullClean(catalog, old(blocks), b, adding) == Some(r.error)
                             && blocks == old(blocks) && nextBlockId == old(nextBlockId)
      ensures r.Success? ==> r.value == b.(id := Some(if b.id.Some? then b.id.value else old(nextBlockId)))
                             && blocks == Upsert(old(blocks), r.value)
      ensures r.Success? && (adding || b.id.None?) ==> blocks == old(blocks) + [r.value]
    {
      match FullClean(catalog, blocks, b, adding)
      case Some(e) =>
        r := Failure(e);
      case None =>
        var id := if b.id.Some? then b.id.value else nextBlockId;
        var row := b.(id := Some(id));
        if b.id.None? {
          FreshIdSameVerdict(catalog, blocks, b, id, adding);
        }
        UpsertKeepsInvariant(catalog, blocks, row, adding);
        blocks := Upsert(blocks, row);
        if id >= nextBlockId {
          nextBlockId := id + 1;
        }
        r := Success(row);
    }
  }
}
