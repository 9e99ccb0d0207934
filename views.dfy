/** The availability query of `AvailableBookingView.get`: given a price ceiling and a closed
    window [check-in, check-out], the affordable apartments and hotel rooms that no block
    covers, with hotel rooms ordered by their room type's price and reduced to the first,
    hence cheapest, room of each hotel. The query only reads the tables. */
module Views {
  import opened Models

  /** The validated query parameters: `max_price` in cents and the two dates as day numbers. */
  datatype Query = Query(maxPrice: Cents, checkIn: Day, checkOut: Day)

  /** An affordable hotel room as the view reads it: the room, its room type (and through
      it the hotel) and the room type's price, the key the rooms are ordered by. */
  datatype RoomRow = RoomRow(room: HotelRoom, roomType: HotelRoomType, price: Cents)

  /** `room.hotel_room_type.hotel`, compared by primary key; a missing hotel is a key too. */
  function HotelKey(row: RoomRow): Option<Id>
  {
    row.roomType.hotel
  }

  /** One record of the response's `items`. */
  datatype Item = Item(listingType: ListingType, title: string, country: string, city: string, price: Cents)

  /** The attribute reads of the response that raise: an apartment without booking info,
      a selected room whose room type has no hotel. */
  datatype ResolveError = ApartmentWithoutBookingInfo(listing: Id) | RoomTypeWithoutHotel(roomType: Id)

  // ---------------------------------------------------------------------------------------
  // One room per hotel.

  /** `hotel in map(lambda r: r.hotel_room_type.hotel, acc)` */
  predicate HotelSeen(acc: seq<RoomRow>, hotel: Option<Id>)
  {
    exists k :: 0 <= k < |acc| && HotelKey(acc[k]) == hotel
  }

  /** `one_room_per_hotel_reducer`: the row is appended unless a row of the same hotel is
      already in the accumulator. */
  function Reducer(acc: seq<RoomRow>, value: RoomRow): seq<RoomRow>
  {
    if HotelSeen(acc, HotelKey(value)) then acc else acc + [value]
  }

  /** `reduce(one_room_per_hotel_reducer, rows, [])`. */
  function KeepFirstPerHotel(rows: seq<RoomRow>): (r: seq<RoomRow>)
    ensures |r| <= |rows|
    ensures forall x :: x in r ==> x in rows
    ensures forall i, j :: 0 <= i < j < |r| ==> HotelKey(r[i]) != HotelKey(r[j])
    ensures forall h :: HotelSeen(r, h) <==> HotelSeen(rows, h)
    decreases |rows|
  {
    if rows == [] then []
    else
      var acc := KeepFirstPerHotel(rows[..|rows| - 1]);
      ReducerStep(rows, acc);
      Reducer(acc, rows[|rows| - 1])
  }

  /** What the fold promises of its accumulator `r` after reading `rows`: rows drawn from the
      input, at most one per hotel, and exactly the hotels of the input. */
  ghost predicate OnePerHotel(rows: seq<RoomRow>, r: seq<RoomRow>)
  {
    && |r| <= |rows|
    && (forall x :: x in r ==> x in rows)
    && (forall i, j :: 0 <= i < j < |r| ==> HotelKey(r[i]) != HotelKey(r[j]))
    && (forall h :: HotelSeen(r, h) <==> HotelSeen(rows, h))
  }

  /** One call of the reducer keeps those promises when the next row is read. */
  lemma ReducerStep(rows: seq<RoomRow>, acc: seq<RoomRow>)
    requires |rows| > 0
    requires OnePerHotel(rows[..|rows| - 1], acc)
    ensures OnePerHotel(rows, Reducer(acc, rows[|rows| - 1]))
  {
    var prefix := rows[..|rows| - 1];
    var value := rows[|rows| - 1];
    assert forall h :: HotelSeen(prefix, h) ==> HotelSeen(rows, h) by {
      forall h | HotelSeen(prefix, h) ensures HotelSeen(rows, h) {
        var k :| 0 <= k < |prefix| && HotelKey(prefix[k]) == h;
        assert rows[k] == prefix[k];
      }
    }
    assert forall h :: HotelSeen(rows, h) ==> HotelSeen(prefix, h) || h == HotelKey(value) by {
      forall h | HotelSeen(rows, h) ensures HotelSeen(prefix, h) || h == HotelKey(value) {
        var k :| 0 <= k < |rows| && HotelKey(rows[k]) == h;
        if k < |prefix| { assert prefix[k] == rows[k]; }
      }
    }
    if !HotelSeen(acc, HotelKey(value)) {
      var r := acc + [value];
      assert forall h :: HotelSeen(r, h) <==> HotelSeen(acc, h) || h == HotelKey(value) by {
        forall h | HotelSeen(r, h) ensures HotelSeen(acc, h) || h == HotelKey(value) {
          var k :| 0 <= k < |r| && HotelKey(r[k]) == h;
          if k < |acc| { assert r[k] == acc[k]; }
        }
        assert HotelKey(r[|acc|]) == HotelKey(value);
        forall h | HotelSeen(acc, h) ensures HotelSeen(r, h) {
          var k :| 0 <= k < |acc| && HotelKey(acc[k]) == h;
          assert r[k] == acc[k];
        }
      }
    }
  }

  /** The fold itself, appending to the accumulator as the reducer does. */
  method OneRoomPerHotel(rows: seq<RoomRow>) returns (acc: seq<RoomRow>)
    ensures acc == KeepFirstPerHotel(rows)
  {
    acc := [];
    for i := 0 to |rows|
      invariant acc == KeepFirstPerHotel(rows[..i])
    {
      var value := rows[i];
      assert rows[..i + 1][..i] == rows[..i];
      if !HotelSeen(acc, HotelKey(value)) {
        acc := acc + [value];
      }
    }
    assert rows[..|rows|] == rows;
  }

  /** Row `i` is the first row of its hotel. */
  ghost predicate FirstOfHotel(rows: seq<RoomRow>, i: int)
  {
    0 <= i < |rows| && forall k :: 0 <= k < i ==> HotelKey(rows[k]) != HotelKey(rows[i])
  }

  /** `r` is the subsequence of `rows` at the increasing positions `idx`, which are exactly
      the positions of first occurrences. */
  ghost predicate FirstPositions(rows: seq<RoomRow>, r: seq<RoomRow>, idx: seq<nat>)
  {
    && |idx| == |r|
    && (forall j :: 0 <= j < |idx| ==> idx[j] < |rows| && r[j] == rows[idx[j]])
    && (forall j, j' :: 0 <= j < j' < |idx| ==> idx[j] < idx[j'])
    && (forall i :: 0 <= i < |rows| ==> (FirstOfHotel(rows, i) <==> i in idx))
  }

  /** The reduction keeps exactly the first row of every hotel, in input order: its result is
      the subsequence of `rows` at the positions `idx`, which are increasing and are exactly
      the positions of first occurrences. */
  lemma {:induction false} KeepFirstPositions(rows: seq<RoomRow>) returns (idx: seq<nat>)
    ensures |idx| == |KeepFirstPerHotel(rows)|
    ensures forall j :: 0 <= j < |idx| ==> idx[j] < |rows| && KeepFirstPerHotel(rows)[j] == rows[idx[j]]
    ensures forall j, j' :: 0 <= j < j' < |idx| ==> idx[j] < idx[j']
    ensures forall i :: 0 <= i < |rows| ==> (FirstOfHotel(rows, i) <==> i in idx)
    decreases |rows|
  {
    if rows == [] {
      idx := [];
    } else {
      var n := |rows| - 1;
      var acc := KeepFirstPerHotel(rows[..n]);
      var prev := KeepFirstPositions(rows[..n]);
      idx := PositionsStep(rows, acc, prev);
    }
  }

  /** One step of the reduction: the positions of its result grow by the last position exactly
      when the last row's hotel was not seen before. */
  lemma PositionsStep(rows: seq<RoomRow>, acc: seq<RoomRow>, prev: seq<nat>) returns (idx: seq<nat>)
    requires |rows| > 0
    requires FirstPositions(rows[..|rows| - 1], acc, prev)
    requires forall h :: HotelSeen(acc, h) <==> HotelSeen(rows[..|rows| - 1], h)
    ensures FirstPositions(rows, Reducer(acc, rows[|rows| - 1]), idx)
  {
    var n := |rows| - 1;
    var prefix := rows[..n];
    FirstOfHotelPrefix(rows, n);
    if HotelSeen(acc, HotelKey(rows[n])) {
      idx := prev;
      assert HotelSeen(prefix, HotelKey(rows[n]));
      var k :| 0 <= k < n && HotelKey(prefix[k]) == HotelKey(rows[n]);
      assert rows[k] == prefix[k];
      assert !FirstOfHotel(rows, n);
    } else {
      var r := acc + [rows[n]];
      idx := prev + [n];
      forall j | 0 <= j < |idx| ensures idx[j] < |rows| && r[j] == rows[idx[j]] {
        if j < |prev| {
          assert r[j] == acc[j] == prefix[prev[j]];
        }
      }
      forall k | 0 <= k < n ensures HotelKey(rows[k]) != HotelKey(rows[n]) {
        assert prefix[k] == rows[k];
      }
      forall i | 0 <= i < |rows| ensures FirstOfHotel(rows, i) <==> i in idx {
        assert i in idx <==> i in prev || i == n;
      }
    }
  }

  /** Before position `n`, being the first row of a hotel does not depend on what follows. */
  lemma FirstOfHotelPrefix(rows: seq<RoomRow>, n: nat)
    requires n <= |rows|
    ensures forall i :: 0 <= i < n ==> (FirstOfHotel(rows, i) <==> FirstOfHotel(rows[..n], i))
  {
  }

  predicate SortedByPrice(rows: seq<RoomRow>)
  {
    forall i, j :: 0 <= i < j < |rows| ==> rows[i].price <= rows[j].price
  }

  /** On rows ordered by price, the row kept for a hotel is no dearer than any row of that
      hotel. */
  lemma {:induction false} KeptRowIsCheapest(rows: seq<RoomRow>)
    requires SortedByPrice(rows)
    ensures forall x, y :: x in KeepFirstPerHotel(rows) && y in rows && HotelKey(x) == HotelKey(y) ==> x.price <= y.price
  {
    var r := KeepFirstPerHotel(rows);
    var idx := KeepFirstPositions(rows);
    forall x, y | x in r && y in rows && HotelKey(x) == HotelKey(y) ensures x.price <= y.price {
      var j :| 0 <= j < |r| && r[j] == x;
      var k :| 0 <= k < |rows| && rows[k] == y;
      assert idx[j] in idx;
      FirstIsCheapest(rows, idx[j], k);
    }
  }

  /** Every hotel of the input is represented in the fold's result. */
  lemma KeptHotelsCover(rows: seq<RoomRow>)
    ensures forall row :: row in rows ==> exists s :: s in KeepFirstPerHotel(rows) && HotelKey(s) == HotelKey(row)
  {
    var r := KeepFirstPerHotel(rows);
    forall row | row in rows ensures exists s :: s in r && HotelKey(s) == HotelKey(row) {
      var k :| 0 <= k < |rows| && rows[k] == row;
      assert HotelSeen(rows, HotelKey(row));
      var j :| 0 <= j < |r| && HotelKey(r[j]) == HotelKey(row);
      assert r[j] in r;
    }
  }

  /** In ordered rows, the first row of a hotel is no dearer than any later row of it. */
  lemma FirstIsCheapest(rows: seq<RoomRow>, i: nat, k: nat)
    requires SortedByPrice(rows) && FirstOfHotel(rows, i)
    requires k < |rows| && HotelKey(rows[k]) == HotelKey(rows[i])
    ensures rows[i].price <= rows[k].price
  {
  }

  // ---------------------------------------------------------------------------------------
  // Ordering by room-type price.

  /** A row no dearer than the head of an ordered sequence can go in front of it. */
  lemma SortedCons(x: RoomRow, s: seq<RoomRow>)
    requires SortedByPrice(s)
    requires s != [] ==> x.price <= s[0].price
    ensures SortedByPrice([x] + s)
  {
  }

  function Insert(x: RoomRow, s: seq<RoomRow>): (r: seq<RoomRow>)
    requires SortedByPrice(s)
    ensures SortedByPrice(r)
    ensures multiset(r) == multiset(s) + multiset{x}
    ensures |r| == |s| + 1 && (r[0] == x || (s != [] && r[0] == s[0]))
  {
    if s == [] then [x]
    else if x.price <= s[0].price then
      SortedCons(x, s);
      [x] + s
    else
      var rest := Insert(x, s[1..]);
      assert multiset([s[0]] + rest) == multiset(s) + multiset{x} by {
        assert s == [s[0]] + s[1..];
      }
      SortedCons(s[0], rest);
      [s[0]] + rest
  }

  /** `order_by("hotel_room_type__booking_info__price")`; rows of equal price keep their
      table order. */
  function SortByPrice(s: seq<RoomRow>): (r: seq<RoomRow>)
    ensures SortedByPrice(r)
    ensures multiset(r) == multiset(s)
  {
    if s == [] then []
    else
      assert s == [s[0]] + s[1..];
      Insert(s[0], SortByPrice(s[1..]))
  }

  // ---------------------------------------------------------------------------------------
  // The query sets.

  /** `Listing.objects.filter(listing_type=APARTMENT).exclude(booking_info__price__gt=max_price)`:
      an apartment is dropped only when it has a booking info priced above the ceiling. */
  predicate AffordableApartment(c: Catalog, l: Listing, maxPrice: Cents)
  {
    && l.listingType == Apartment
    && match BookingInfoOfListing(c.bookingInfos, l.id)
       case Some(bi) => bi.price <= maxPrice
       case None => true
  }

  /** The listing of a block matching `booking_info__listing__listing_type=APARTMENT`. */
  function ApartmentOfBlock(c: Catalog, b: BlockedDays): Option<Id>
  {
    match BookingInfoById(c.bookingInfos, b.bookingInfo)
    case Some(bi) => if bi.listing.Some? && IsApartment(c, bi.listing.value) then bi.listing else None
    case None => None
  }

  /** `blocked_apartments`: the listings of apartment blocks that meet the window. */
  function BlockedApartments(c: Catalog, blocks: seq<BlockedDays>, q: Query): set<Id>
  {
    set b | b in blocks && Overlaps(b, q.checkIn, q.checkOut) && ApartmentOfBlock(c, b).Some?
      :: ApartmentOfBlock(c, b).value
  }

  /** `blocked_hotel_rooms`: the rooms named by the other blocks that meet the window. */
  function BlockedHotelRooms(c: Catalog, blocks: seq<BlockedDays>, q: Query): set<Id>
  {
    set b | b in blocks && Overlaps(b, q.checkIn, q.checkOut) && ApartmentOfBlock(c, b).None? && b.hotelRoom.Some?
      :: b.hotelRoom.value
  }

  /** `available_apartments`, in table order. */
  function AvailableApartments(c: Catalog, blocks: seq<BlockedDays>, q: Query): seq<Listing>
  {
    var blocked := BlockedApartments(c, blocks, q);
    Filter(c.listings, (l: Listing) => AffordableApartment(c, l, q.maxPrice) && l.id !in blocked)
  }

  /** The room joined with its room type and price when the room type's booking info is within
      the ceiling (`HotelRoomType.objects.filter(booking_info__price__lte=max_price)`). */
  function AffordableRoom(c: Catalog, room: HotelRoom, maxPrice: Cents): (r: Option<RoomRow>)
    ensures r.Some? ==>
              && r.value.room == room
              && r.value.roomType in c.roomTypes
              && room.roomType == Some(r.value.roomType.id)
              && (exists bi :: bi in c.bookingInfos && bi.roomType == Some(r.value.roomType.id) && bi.price == r.value.price)
              && r.value.price <= maxPrice
  {
    if room.roomType.None? then None
    else
      match RoomTypeById(c.roomTypes, room.roomType.value)
      case None => None
      case Some(rt) =>
        match BookingInfoOfRoomType(c.bookingInfos, rt.id)
        case Some(bi) => if bi.price <= maxPrice then Some(RoomRow(room, rt, bi.price)) else None
        case None => None
  }

  /** `affordable_hotel_rooms`, in table order. */
  function AffordableRooms(c: Catalog, rooms: seq<HotelRoom>, maxPrice: Cents): (r: seq<RoomRow>)
    ensures forall row :: row in r <==> row.room in rooms && AffordableRoom(c, row.room, maxPrice) == Some(row)
  {
    if rooms == [] then []
    else
      var rest := AffordableRooms(c, rooms[1..], maxPrice);
      match AffordableRoom(c, rooms[0], maxPrice)
      case Some(row) => [row] + rest
      case None => rest
  }

  /** `available_hotel_rooms`: the affordable rooms that are not blocked, ordered by price. */
  function AvailableRooms(c: Catalog, blocks: seq<BlockedDays>, q: Query): (r: seq<RoomRow>)
    ensures SortedByPrice(r)
    ensures forall row :: row in r <==>
              row in AffordableRooms(c, c.rooms, q.maxPrice) && row.room.id !in BlockedHotelRooms(c, blocks, q)
    ensures forall row :: row in r ==> row.price <= q.maxPrice
  {
    var blocked := BlockedHotelRooms(c, blocks, q);
    var unblocked := Filter(AffordableRooms(c, c.rooms, q.maxPrice), (row: RoomRow) => row.room.id !in blocked);
    var sorted := SortByPrice(unblocked);
    assert forall row :: row in sorted <==> row in unblocked by {
      forall row ensures row in sorted <==> row in unblocked {
        assert row in sorted <==> row in multiset(sorted);
      }
    }
    sorted
  }

  /** `one_room_per_hotel`: at most one room per hotel, every hotel with an available room is
      represented, and the room chosen for a hotel is its cheapest available one. */
  function SelectedRooms(c: Catalog, blocks: seq<BlockedDays>, q: Query): (r: seq<RoomRow>)
    ensures forall i, j :: 0 <= i < j < |r| ==> HotelKey(r[i]) != HotelKey(r[j])
    ensures forall s :: s in r ==> s in AvailableRooms(c, blocks, q)
    ensures forall row :: row in AvailableRooms(c, blocks, q) ==> exists s :: s in r && HotelKey(s) == HotelKey(row)
    ensures forall s, row :: s in r && row in AvailableRooms(c, blocks, q) && HotelKey(s) == HotelKey(row) ==> s.price <= row.price
  {
    var available := AvailableRooms(c, blocks, q);
    KeptRowIsCheapest(available);
    KeptHotelsCover(available);
    KeepFirstPerHotel(available)
  }

  // ---------------------------------------------------------------------------------------
  // The response.

  /** The dictionary built for one unit: the listing's fields and a price. */
  function ItemOf(l: Listing, price: Cents): Item
  {
    Item(l.listingType, l.title, l.country, l.city, price)
  }

  /** The items of the available apartments, each priced by its own booking info; the first
      apartment without one aborts the response. */
  function ApartmentItems(c: Catalog, apartments: seq<Listing>): (r: Result<seq<Item>, ResolveError>)
    ensures r.Success? <==> forall i :: 0 <= i < |apartments| ==> BookingInfoOfListing(c.bookingInfos, apartments[i].id).Some?
    ensures r.Success? ==> |r.value| == |apartments|
    ensures r.Success? ==> forall i :: 0 <= i < |apartments| ==>
              && BookingInfoOfListing(c.bookingInfos, apartments[i].id).Some?
              && r.value[i] == ItemOf(apartments[i], BookingInfoOfListing(c.bookingInfos, apartments[i].id).value.price)
  {
    if apartments == [] then Success([])
    else
      match BookingInfoOfListing(c.bookingInfos, apartments[0].id)
      case None => Failure(ApartmentWithoutBookingInfo(apartments[0].id))
      case Some(bi) =>
        match ApartmentItems(c, apartments[1..])
        case Failure(e) =>
          Failure(e)
        case Success(rest) => Success([ItemOf(apartments[0], bi.price)] + rest)
  }

  /** `room.hotel_room_type.hotel`, when the room type has one. */
  function HotelOf(c: Catalog, row: RoomRow): Option<Listing>
  {
    if row.roomType.hotel.Some? then ListingById(c.listings, row.roomType.hotel.value) else None
  }

  /** The items of the selected rooms: the hotel's fields and the room type's price; the first
      room whose room type has no hotel aborts the response. */
  function RoomItems(c: Catalog, rows: seq<RoomRow>): (r: Result<seq<Item>, ResolveError>)
    ensures r.Success? <==> forall i :: 0 <= i < |rows| ==> HotelOf(c, rows[i]).Some?
    ensures r.Success? ==> |r.value| == |rows|
    ensures r.Success? ==> forall i :: 0 <= i < |rows| ==>
              HotelOf(c, rows[i]).Some? && r.value[i] == ItemOf(HotelOf(c, rows[i]).value, rows[i].price)
  {
    if rows == [] then Success([])
    else
      match HotelOf(c, rows[0])
      case None => Failure(RoomTypeWithoutHotel(rows[0].roomType.id))
      case Some(hotel) =>
        match RoomItems(c, rows[1..])
        case Failure(e) =>
          Failure(e)
        case Success(rest) => Success([ItemOf(hotel, rows[0].price)] + rest)
  }
  /** The error of the apartment items names the first apartment without a booking info. */
  lemma {:induction false} ApartmentItemsFirstFailure(c: Catalog, apartments: seq<Listing>)
    ensures ApartmentItems(c, apartments).Failure? ==> exists i :: (0 <= i < |apartments|
              && ApartmentItems(c, apartments).error == ApartmentWithoutBookingInfo(apartments[i].id)
              && BookingInfoOfListing(c.bookingInfos, apartments[i].id).None?
              && forall k :: 0 <= k < i ==> BookingInfoOfListing(c.bookingInfos, apartments[k].id).Some?)
  {
    if apartments == [] {
    } else if BookingInfoOfListing(c.bookingInfos, apartments[0].id).None? {
      assert ApartmentItems(c, apartments).error == ApartmentWithoutBookingInfo(apartments[0].id);
    } else {
      var tail := apartments[1..];
      ApartmentItemsFirstFailure(c, tail);
      if ApartmentItems(c, tail).Failure? {
        assert ApartmentItems(c, apartments).error == ApartmentItems(c, tail).error;
        var i :| 0 <= i < |tail| && ApartmentItems(c, tail).error == ApartmentWithoutBookingInfo(tail[i].id)
                 && BookingInfoOfListing(c.bookingInfos, tail[i].id).None?
                 && forall k :: 0 <= k < i ==> BookingInfoOfListing(c.bookingInfos, tail[k].id).Some?;
        assert apartments[i + 1] == tail[i];
        forall k | 0 <= k < i + 1
          ensures BookingInfoOfListing(c.bookingInfos, apartments[k].id).Some?
        {
          if k > 0 {
            assert apartments[k] == tail[k - 1];
          }
        }
      }
    }
  }

  /** The error of the room items names the first room whose room type has no hotel. */
  lemma {:induction false} RoomItemsFirstFailure(c: Catalog, rows: seq<RoomRow>)
    ensures RoomItems(c, rows).Failure? ==> exists i :: (0 <= i < |rows|
              && RoomItems(c, rows).error == RoomTypeWithoutHotel(rows[i].roomType.id)
              && HotelOf(c, rows[i]).None?
              && forall k :: 0 <= k < i ==> HotelOf(c, rows[k]).Some?)
  {
    if rows == [] {
    } else if HotelOf(c, rows[0]).None? {
      assert RoomItems(c, rows).error == RoomTypeWithoutHotel(rows[0].roomType.id);
    } else {
      var tail := rows[1..];
      RoomItemsFirstFailure(c, tail);
      if RoomItems(c, tail).Failure? {
        assert RoomItems(c, rows).error == RoomItems(c, tail).error;
        var i :| 0 <= i < |tail| && RoomItems(c, tail).error == RoomTypeWithoutHotel(tail[i].roomType.id)
                 && HotelOf(c, tail[i]).None?
                 && forall k :: 0 <= k < i ==> HotelOf(c, tail[k]).Some?;
        assert rows[i + 1] == tail[i];
        forall k | 0 <= k < i + 1
          ensures HotelOf(c, rows[k]).Some?
        {
          if k > 0 {
            assert rows[k] == tail[k - 1];
          }
        }
      }
    }
  }


  /** The response body: the apartment items, then one item per selected room. It fails with
      the first read that has nothing to read, apartments first. */
  function Respond(c: Catalog, apartments: seq<Listing>, rows: seq<RoomRow>): (r: Result<seq<Item>, ResolveError>)
    ensures r.Success? <==>
              && (forall i :: 0 <= i < |apartments| ==> BookingInfoOfListing(c.bookingInfos, apartments[i].id).Some?)
              && (forall j :: 0 <= j < |rows| ==> HotelOf(c, rows[j]).Some?)
    ensures r.Success? ==> |r.value| == |apartments| + |rows|
    ensures r.Success? ==> forall i :: 0 <= i < |apartments| ==>
              && BookingInfoOfListing(c.bookingInfos, apartments[i].id).Some?
              && r.value[i] == ItemOf(apartments[i], BookingInfoOfListing(c.bookingInfos, apartments[i].id).value.price)
    ensures r.Success? ==> forall j :: 0 <= j < |rows| ==>
              && HotelOf(c, rows[j]).Some?
              && r.value[|apartments| + j] == ItemOf(HotelOf(c, rows[j]).value, rows[j].price)
    ensures r.Failure? ==>
              r == if ApartmentItems(c, apartments).Failure? then ApartmentItems(c, apartments) else RoomItems(c, rows)
  {
    match ApartmentItems(c, apartments)
    case Failure(e) => Failure(e)
    case Success(apartmentItems) =>
      match RoomItems(c, rows)
      case Failure(e) => Failure(e)
      case Success(hotelItems) => Success(apartmentItems + hotelItems)
  }

  /** Items priced by apartments under the ceiling and by rooms under the ceiling stay under it. */
  lemma RespondWithinCeiling(c: Catalog, apartments: seq<Listing>, rows: seq<RoomRow>, maxPrice: Cents)
    requires forall l :: l in apartments ==> AffordableApartment(c, l, maxPrice)
    requires forall s :: s in rows ==> s.price <= maxPrice
    ensures Respond(c, apartments, rows).Success? ==> forall it :: it in Respond(c, apartments, rows).value ==> it.price <= maxPrice
  {
    var r := Respond(c, apartments, rows);
    if r.Success? {
      forall k | 0 <= k < |r.value| ensures r.value[k].price <= maxPrice {
        if k < |apartments| {
          assert apartments[k] in apartments;
        } else {
          assert rows[k - |apartments|] in rows;
        }
      }
    }
  }

  /** `AvailableBookingView.get` after parameter validation: every item is within the price
      ceiling, and the available apartments come first, as apartment items. */
  function Resolve(c: Catalog, blocks: seq<BlockedDays>, q: Query): (r: Result<seq<Item>, ResolveError>)
    ensures r.Success? ==> forall it :: it in r.value ==> it.price <= q.maxPrice
    ensures r.Success? ==> |r.value| == |AvailableApartments(c, blocks, q)| + |SelectedRooms(c, blocks, q)|
    ensures r.Success? ==> forall i :: 0 <= i < |AvailableApartments(c, blocks, q)| ==> r.value[i].listingType == Apartment
  {
    RespondOnAvailable(c, blocks, q);
    Respond(c, AvailableApartments(c, blocks, q), SelectedRooms(c, blocks, q))
  }

  /** The response built from the available apartments and the selected rooms is within the
      ceiling and lists the apartments first. */
  lemma RespondOnAvailable(c: Catalog, blocks: seq<BlockedDays>, q: Query)
    ensures var apartments := AvailableApartments(c, blocks, q);
            var r := Respond(c, apartments, SelectedRooms(c, blocks, q));
            r.Success? ==>
              && (forall it :: it in r.value ==> it.price <= q.maxPrice)
              && forall i :: 0 <= i < |apartments| ==> r.value[i].listingType == Apartment
  {
    var apartments := AvailableApartments(c, blocks, q);
    var selected := SelectedRooms(c, blocks, q);
    RespondWithinCeiling(c, apartments, selected, q.maxPrice);
    assert forall i :: 0 <= i < |apartments| ==> apartments[i] in apartments;
  }


  // ---------------------------------------------------------------------------------------
  // What the response promises.

  /** Block `b` is on the booking info of listing `l`. */
  ghost predicate BlockOnListing(c: Catalog, b: BlockedDays, l: Listing)
  {
    exists bi :: bi in c.bookingInfos && bi.id == b.bookingInfo && bi.listing == Some(l.id)
  }

  /** Block `b` is on the booking info of an apartment listing. */
  ghost predicate ApartmentBlock(c: Catalog, b: BlockedDays)
  {
    exists l :: l in c.listings && l.listingType == Apartment && BlockOnListing(c, b, l)
  }

  lemma ApartmentOfBlockIsOwner(c: Catalog, b: BlockedDays, l: Listing)
    requires WellFormed(c)
    requires l in c.listings && l.listingType == Apartment
    ensures ApartmentOfBlock(c, b) == Some(l.id) <==> BlockOnListing(c, b, l)
  {
    if BlockOnListing(c, b, l) {
      var bi :| bi in c.bookingInfos && bi.id == b.bookingInfo && bi.listing == Some(l.id);
      assert BookingInfoById(c.bookingInfos, b.bookingInfo) == Some(bi);
      assert ListingById(c.listings, l.id) == Some(l);
    }
  }

  lemma ApartmentOfBlockIff(c: Catalog, b: BlockedDays)
    requires WellFormed(c)
    ensures ApartmentOfBlock(c, b).Some? <==> ApartmentBlock(c, b)
  {
    if ApartmentOfBlock(c, b).Some? {
      var bi := BookingInfoById(c.bookingInfos, b.bookingInfo).value;
      var l := ListingById(c.listings, bi.listing.value).value;
      assert BlockOnListing(c, b, l);
    }
    if ApartmentBlock(c, b) {
      var l :| l in c.listings && l.listingType == Apartment && BlockOnListing(c, b, l);
      ApartmentOfBlockIsOwner(c, b, l);
    }
  }

  /** An apartment listing is in the blocked-apartment set exactly when a block on its booking
      info overlaps the window. */
  lemma BlockedApartmentIff(c: Catalog, blocks: seq<BlockedDays>, q: Query, l: Listing)
    requires WellFormed(c)
    requires l in c.listings && l.listingType == Apartment
    ensures l.id in BlockedApartments(c, blocks, q) <==>
              exists b :: b in blocks && Overlaps(b, q.checkIn, q.checkOut) && BlockOnListing(c, b, l)
  {
    if l.id in BlockedApartments(c, blocks, q) {
      var b :| b in blocks && Overlaps(b, q.checkIn, q.checkOut) && ApartmentOfBlock(c, b).Some?
               && ApartmentOfBlock(c, b).value == l.id;
      ApartmentOfBlockIsOwner(c, b, l);
    }
    if b :| b in blocks && Overlaps(b, q.checkIn, q.checkOut) && BlockOnListing(c, b, l) {
      ApartmentOfBlockIsOwner(c, b, l);
      assert l.id in BlockedApartments(c, blocks, q);
    }
  }

  /** An apartment is in the response exactly when it is an apartment listing, none of its
      booking info is priced above the ceiling, and no block on its booking info meets the
      window. A block that does not meet the window has no effect. */
  lemma ApartmentAvailability(c: Catalog, blocks: seq<BlockedDays>, q: Query, l: Listing)
    requires WellFormed(c)
    ensures l in AvailableApartments(c, blocks, q) <==>
              && l in c.listings
              && l.listingType == Apartment
              && (forall bi :: bi in c.bookingInfos && bi.listing == Some(l.id) ==> bi.price <= q.maxPrice)
              && !(exists b :: b in blocks && Overlaps(b, q.checkIn, q.checkOut) && BlockOnListing(c, b, l))
  {
    if l in c.listings && l.listingType == Apartment {
      assert AffordableApartment(c, l, q.maxPrice) <==>
             forall bi :: bi in c.bookingInfos && bi.listing == Some(l.id) ==> bi.price <= q.maxPrice;
      BlockedApartmentIff(c, blocks, q, l);
    }
  }


  /** A room's row as the affordable-room query builds it: the room type it names, that type's
      booking info, at a price within the ceiling. */
  lemma AffordableRoomIff(c: Catalog, row: RoomRow, maxPrice: Cents)
    requires WellFormed(c)
    ensures AffordableRoom(c, row.room, maxPrice) == Some(row) <==>
              && row.roomType in c.roomTypes
              && row.room.roomType == Some(row.roomType.id)
              && (exists bi :: bi in c.bookingInfos && bi.roomType == Some(row.roomType.id) && bi.price == row.price)
              && row.price <= maxPrice
  {
    if row.roomType in c.roomTypes && row.room.roomType == Some(row.roomType.id) {
      assert RoomTypeById(c.roomTypes, row.roomType.id) == Some(row.roomType);
      if bi :| bi in c.bookingInfos && bi.roomType == Some(row.roomType.id) && bi.price == row.price {
        assert BookingInfoOfRoomType(c.bookingInfos, row.roomType.id) == Some(bi);
      }
    }
  }

  /** A room is in the blocked-room set exactly when an overlapping block that is not on an
      apartment's booking names it. */
  lemma BlockedHotelRoomIff(c: Catalog, blocks: seq<BlockedDays>, q: Query, room: Id)
    requires WellFormed(c)
    ensures room in BlockedHotelRooms(c, blocks, q) <==>
              exists b :: b in blocks && Overlaps(b, q.checkIn, q.checkOut) && !ApartmentBlock(c, b) && b.hotelRoom == Some(room)
  {
    if room in BlockedHotelRooms(c, blocks, q) {
      var b :| b in blocks && Overlaps(b, q.checkIn, q.checkOut) && ApartmentOfBlock(c, b).None?
               && b.hotelRoom.Some? && b.hotelRoom.value == room;
      ApartmentOfBlockIff(c, b);
    }
    if b :| b in blocks && Overlaps(b, q.checkIn, q.checkOut) && !ApartmentBlock(c, b) && b.hotelRoom == Some(room) {
      ApartmentOfBlockIff(c, b);
      assert room in BlockedHotelRooms(c, blocks, q);
    }
  }

  /** A hotel room is among the available rooms exactly when it belongs to a room type whose
      booking info is within the ceiling (at that price), and no block that is not on an
      apartment's booking names the room for a period meeting the window. */
  lemma RoomAvailability(c: Catalog, blocks: seq<BlockedDays>, q: Query, row: RoomRow)
    requires WellFormed(c)
    ensures row in AvailableRooms(c, blocks, q) <==>
              && row.room in c.rooms
              && row.roomType in c.roomTypes
              && row.room.roomType == Some(row.roomType.id)
              && (exists bi :: bi in c.bookingInfos && bi.roomType == Some(row.roomType.id) && bi.price == row.price)
              && row.price <= q.maxPrice
              && !(exists b :: b in blocks && Overlaps(b, q.checkIn, q.checkOut)
                               && !ApartmentBlock(c, b) && b.hotelRoom == Some(row.room.id))
  {
    var blocked := BlockedHotelRooms(c, blocks, q);
    var affordable := AffordableRooms(c, c.rooms, q.maxPrice);
    var unblocked := Filter(affordable, (r: RoomRow) => r.room.id !in blocked);
    assert row in AvailableRooms(c, blocks, q) <==> row in multiset(unblocked);
    assert row in unblocked <==> row in affordable && row.room.id !in blocked;
    AffordableRoomIff(c, row, q.maxPrice);
    BlockedHotelRoomIff(c, blocks, q, row.room.id);
  }

  /** A room named by a block that meets the window and is not on an apartment's booking is
      never chosen. */
  lemma BlockedRoomNeverSelected(c: Catalog, blocks: seq<BlockedDays>, q: Query, b: BlockedDays)
    requires b in blocks && Overlaps(b, q.checkIn, q.checkOut)
    requires ApartmentOfBlock(c, b).None? && b.hotelRoom.Some?
    ensures forall s :: s in SelectedRooms(c, blocks, q) ==> s.room.id != b.hotelRoom.value
  {
    assert b.hotelRoom.value in BlockedHotelRooms(c, blocks, q);
    forall s | s in SelectedRooms(c, blocks, q) ensures s.room.id != b.hotelRoom.value {
      assert s in AvailableRooms(c, blocks, q);
    }
  }

  /** Blocks whose periods do not meet the window do not change the response: once the window
      moves off a block, what it hid comes back. */
  lemma NonOverlappingBlocksIgnored(c: Catalog, blocks: seq<BlockedDays>, extra: seq<BlockedDays>, q: Query)
    requires forall b :: b in extra ==> !Overlaps(b, q.checkIn, q.checkOut)
    ensures Resolve(c, blocks + extra, q) == Resolve(c, blocks, q)
  {
    assert BlockedApartments(c, blocks + extra, q) == BlockedApartments(c, blocks, q);
    assert BlockedHotelRooms(c, blocks + extra, q) == BlockedHotelRooms(c, blocks, q);
  }
}
