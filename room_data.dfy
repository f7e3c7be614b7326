/**
 * The room catalogue: rooms 101-110, 201-210 and 301-310 of building A,
 * looked up by number and filtered by what the user types.
 */
module RoomData {
  import opened Wrappers
  import opened Text

  datatype RoomInfo = RoomInfo(roomNumber: string, floor: int, building: Option<string>)

  /** The floor followed by the room, zero-padded to two digits. */
  function RoomNumberText(floor: nat, room: nat): (s: string)
    ensures |s| >= 3
  {
    NatToString(floor) + PadStart(NatToString(room), 2, '0')
  }

  function MakeRoom(floor: nat, room: nat): RoomInfo {
    RoomInfo(RoomNumberText(floor, room), floor, Some("A"))
  }

  /** The three digits of room `room` (below 100) of floor `floor` (below 10). */
  function ThreeDigits(floor: nat, room: nat): (s: string)
    requires floor < 10 && room < 100
    ensures |s| == 3 && forall i :: 0 <= i < 3 ==> IsDigit(s[i])
  {
    [DigitChar(floor), DigitChar(room / 10), DigitChar(room % 10)]
  }

  /** Entry `k` of the catalogue: room `k % 10 + 1` of floor `k / 10 + 1`, numbered by its digits. */
  function CatalogueEntry(k: nat): RoomInfo
    requires k < 30
  {
    RoomInfo(ThreeDigits(k / 10 + 1, k % 10 + 1), k / 10 + 1, Some("A"))
  }

  /** The first `n` entries of the catalogue, in generation order. */
  function CatalogueUpTo(n: nat): (rooms: seq<RoomInfo>)
    requires n <= 30
    ensures |rooms| == n
  {
    if n == 0 then [] else CatalogueUpTo(n - 1) + [CatalogueEntry(n - 1)]
  }

  /** The generator's loop bounds: three floors of ten rooms. */
  const Floors: nat := 3
  const RoomsPerFloor: nat := 10

  /** The catalogue, `roomList`. */
  function Catalogue(): (rooms: seq<RoomInfo>)
    ensures |rooms| == 30
  {
    CatalogueUpTo(Floors * RoomsPerFloor)
  }

  /** Entry `k` of any prefix is `CatalogueEntry(k)`. */
  lemma {:induction false} CatalogueUpToAt(n: nat, k: nat)
    requires k < n <= 30
    ensures CatalogueUpTo(n)[k] == CatalogueEntry(k)
  {
    if k < n - 1 {
      CatalogueUpToAt(n - 1, k);
    }
  }

  /** A one-digit floor and a room below 100 give exactly three digits: the floor, then the room's tens and units. */
  lemma RoomNumberDigits(floor: nat, room: nat)
    requires floor < 10 && room < 100
    ensures RoomNumberText(floor, room) == ThreeDigits(floor, room)
  {
    assert NatToString(floor) == [DigitChar(floor)];
    PaddedTwoDigits(room);
  }

  lemma FloorAndRoomOf(floor: nat, room: nat)
    requires 1 <= floor <= 3 && 1 <= room <= 10
    ensures var k := (floor - 1) * 10 + room - 1; k < 30 && k / 10 + 1 == floor && k % 10 + 1 == room
  {
  }

  /** Room `room` of floor `floor`, as the generator builds it, is entry `(floor - 1) * 10 + room - 1`. */
  lemma CatalogueIndex(floor: nat, room: nat)
    requires 1 <= floor <= 3 && 1 <= room <= 10
    ensures (floor - 1) * 10 + room - 1 < 30
    ensures CatalogueEntry((floor - 1) * 10 + room - 1) == MakeRoom(floor, room)
  {
    FloorAndRoomOf(floor, room);
    var k := (floor - 1) * 10 + room - 1;
    assert CatalogueEntry(k) == RoomInfo(ThreeDigits(floor, room), floor, Some("A"));
    RoomNumberDigits(floor, room);
  }

  /** `rooms` is the first `|rooms|` entries of the catalogue. */
  ghost predicate GeneratedSoFar(rooms: seq<RoomInfo>) {
    |rooms| <= 30 && rooms == CatalogueUpTo(|rooms|)
  }

  /** Pushing room `room` of floor `floor` onto the entries before it extends the catalogue prefix by one. */
  lemma GenerateStep(rooms: seq<RoomInfo>, floor: nat, room: nat)
    requires 1 <= floor <= 3 && 1 <= room <= 10
    requires |rooms| == (floor - 1) * 10 + room - 1 && GeneratedSoFar(rooms)
    ensures GeneratedSoFar(rooms + [MakeRoom(floor, room)])
  {
    CatalogueIndex(floor, room);
  }

  /** `generateRoomNumbers`: floors 1 to 3, rooms 1 to 10 on each, floor by floor. */
  method GenerateRoomNumbers() returns (rooms: seq<RoomInfo>)
    ensures rooms == Catalogue()
  {
    rooms := [];
    for floor := 1 to 4
      invariant |rooms| == (floor - 1) * 10 && GeneratedSoFar(rooms)
    {
      for room := 1 to 11
        invariant |rooms| == (floor - 1) * 10 + room - 1 && GeneratedSoFar(rooms)
      {
        GenerateStep(rooms, floor, room);
        rooms := rooms + [MakeRoom(floor, room)];
      }
    }
  }

  lemma CatalogueAt(k: nat)
    requires k < 30
    ensures Catalogue()[k] == CatalogueEntry(k)
  {
    CatalogueUpToAt(30, k);
  }

  /** Every catalogue number has three digits, its floor digit first, and the entry's floor and building are the loop's. */
  lemma CatalogueShape(k: nat)
    requires k < 30
    ensures var r := Catalogue()[k];
      && 1 <= r.floor <= 3 && r.floor == k / 10 + 1
      && |r.roomNumber| == 3
      && r.roomNumber[0] == DigitChar(r.floor)
      && r.building == Some("A")
      && (forall i :: 0 <= i < 3 ==> IsDigit(r.roomNumber[i]))
  {
    CatalogueAt(k);
  }

  /** No two catalogue entries share a room number. */
  lemma CatalogueNumbersDistinct(k: nat, l: nat)
    requires k < 30 && l < 30 && k != l
    ensures Catalogue()[k].roomNumber != Catalogue()[l].roomNumber
  {
    CatalogueAt(k);
    CatalogueAt(l);
  }

  /** `roomList.find(room => room.roomNumber === roomNumber)`: the first room with that number, if any. */
  function FindRoomByNumber(rooms: seq<RoomInfo>, roomNumber: string): (found: Option<RoomInfo>)
    ensures found.None? <==> forall k :: 0 <= k < |rooms| ==> rooms[k].roomNumber != roomNumber
    ensures found.Some? ==>
      exists k :: 0 <= k < |rooms| && rooms[k] == found.value && rooms[k].roomNumber == roomNumber &&
        (forall j :: 0 <= j < k ==> rooms[j].roomNumber != roomNumber)
  {
    if rooms == [] then None
    else if rooms[0].roomNumber == roomNumber then
      assert rooms[0] == rooms[0];
      Some(rooms[0])
    else
      var rest := FindRoomByNumber(rooms[1..], roomNumber);
      assert forall k :: 0 < k < |rooms| ==> rooms[k] == rooms[1..][k - 1];
      if rest.Some? then
        var k :| 0 <= k < |rooms| - 1 && rooms[1..][k] == rest.value && rooms[1..][k].roomNumber == roomNumber &&
          (forall j :: 0 <= j < k ==> rooms[1..][j].roomNumber != roomNumber);
        assert rooms[k + 1] == rest.value;
        assert forall j :: 0 < j < k + 1 ==> rooms[j] == rooms[1..][j - 1];
        rest
      else rest
  }

  /** Looking up a catalogue number finds that entry. */
  lemma FindCatalogueRoom(k: nat)
    requires k < 30
    ensures FindRoomByNumber(Catalogue(), Catalogue()[k].roomNumber) == Some(Catalogue()[k])
  {
    var rooms := Catalogue();
    var found := FindRoomByNumber(rooms, rooms[k].roomNumber);
    var l :| 0 <= l < |rooms| && rooms[l] == found.value && rooms[l].roomNumber == rooms[k].roomNumber &&
      (forall j :: 0 <= j < l ==> rooms[j].roomNumber != rooms[k].roomNumber);
    if l != k {
      CatalogueNumbersDistinct(k, l);
      assert false;
    }
  }

  /** A room matches the lower-cased input when its lower-cased number contains it. */
  predicate Matches(room: RoomInfo, lowerInput: string) {
    Includes(ToLower(room.roomNumber), lowerInput)
  }

  /** `roomList.filter(...)`: the matching rooms, in catalogue order. */
  function MatchingRooms(rooms: seq<RoomInfo>, lowerInput: string): (r: seq<RoomInfo>)
    ensures |r| <= |rooms|
    ensures forall k :: 0 <= k < |r| ==> Matches(r[k], lowerInput)
    decreases |rooms|
  {
    if rooms == [] then []
    else (if Matches(rooms[0], lowerInput) then [rooms[0]] else []) + MatchingRooms(rooms[1..], lowerInput)
  }

  /** The filter keeps exactly the matching rooms. */
  lemma {:induction false} MatchingRoomsMembers(rooms: seq<RoomInfo>, lowerInput: string)
    ensures forall r :: r in MatchingRooms(rooms, lowerInput) <==> r in rooms && Matches(r, lowerInput)
    decreases |rooms|
  {
    if rooms != [] {
      MatchingRoomsMembers(rooms[1..], lowerInput);
      assert rooms == [rooms[0]] + rooms[1..];
    }
  }

  /** The filter keeps the matching rooms of two lists one after the other: the result is in list order. */
  lemma {:induction false} MatchingRoomsAppend(a: seq<RoomInfo>, b: seq<RoomInfo>, lowerInput: string)
    ensures MatchingRooms(a + b, lowerInput) == MatchingRooms(a, lowerInput) + MatchingRooms(b, lowerInput)
    decreases |a|
  {
    if a != [] {
      assert (a + b)[0] == a[0] && (a + b)[1..] == a[1..] + b;
      MatchingRoomsAppend(a[1..], b, lowerInput);
    } else {
      assert a + b == b;
    }
  }

  /** One room is kept exactly when it matches. */
  lemma MatchingRoomsSingle(room: RoomInfo, lowerInput: string)
    ensures MatchingRooms([room], lowerInput) == if Matches(room, lowerInput) then [room] else []
  {
    assert [room][1..] == [];
  }

  /** `filterRoomsByInput`: the whole list for an empty input, otherwise the rooms whose number contains the input, ignoring case. */
  function FilterRoomsByInput(rooms: seq<RoomInfo>, input: string): (r: seq<RoomInfo>)
    ensures input == [] ==> r == rooms
    ensures forall x :: x in r <==> x in rooms && (input == [] || Includes(ToLower(x.roomNumber), ToLower(input)))
  {
    if input == [] then rooms
    else
      MatchingRoomsMembers(rooms, ToLower(input));
      MatchingRooms(rooms, ToLower(input))
  }

  /** Filtering two lists one after the other is filtering each: the filter keeps list order and takes each room once. */
  lemma FilterRoomsByInputAppend(a: seq<RoomInfo>, b: seq<RoomInfo>, input: string)
    ensures FilterRoomsByInput(a + b, input) == FilterRoomsByInput(a, input) + FilterRoomsByInput(b, input)
  {
    if input != [] {
      MatchingRoomsAppend(a, b, ToLower(input));
    }
  }

  /** Filtering one room keeps it exactly when the input is empty or its number contains the input, ignoring case. */
  lemma FilterRoomsByInputSingle(room: RoomInfo, input: string)
    ensures FilterRoomsByInput([room], input) ==
      if input == [] || Includes(ToLower(room.roomNumber), ToLower(input)) then [room] else []
  {
    if input != [] {
      MatchingRoomsSingle(room, ToLower(input));
    }
  }

  /** When exactly one room matches, the filter yields that room alone. */
  lemma {:induction false} MatchingOnly(rooms: seq<RoomInfo>, lowerInput: string, k: nat)
    requires k < |rooms| && Matches(rooms[k], lowerInput)
    requires forall j :: 0 <= j < |rooms| && j != k ==> !Matches(rooms[j], lowerInput)
    ensures MatchingRooms(rooms, lowerInput) == [rooms[k]]
    decreases |rooms|
  {
    if k == 0 {
      NoneMatching(rooms[1..], lowerInput);
    } else {
      MatchingOnly(rooms[1..], lowerInput, k - 1);
    }
  }

  lemma {:induction false} NoneMatching(rooms: seq<RoomInfo>, lowerInput: string)
    requires forall j :: 0 <= j < |rooms| ==> !Matches(rooms[j], lowerInput)
    ensures MatchingRooms(rooms, lowerInput) == []
    decreases |rooms|
  {
    if rooms != [] {
      NoneMatching(rooms[1..], lowerInput);
    }
  }

  /** A digit string is its own lower case. */
  lemma DigitsLower(s: string)
    requires forall i :: 0 <= i < |s| ==> IsDigit(s[i])
    ensures ToLower(s) == s
  {
  }

  /** Two strings of the same length contain each other only when they are equal. */
  lemma IncludesSameLength(s: string, t: string)
    requires |s| == |t|
    ensures Includes(s, t) <==> s == t
  {
    if Includes(s, t) {
      var i :| OccursAt(s, t, i);
      assert s[..] == s[i..i + |t|];
    } else {
      assert !OccursAt(s, t, 0);
    }
  }

  /** Typing a full catalogue number narrows the catalogue to that one room. */
  lemma FilterByFullNumber(k: nat)
    requires k < 30
    ensures FilterRoomsByInput(Catalogue(), Catalogue()[k].roomNumber) == [Catalogue()[k]]
  {
    var rooms := Catalogue();
    var number := rooms[k].roomNumber;
    CatalogueShape(k);
    DigitsLower(number);
    forall j | 0 <= j < 30
      ensures Matches(rooms[j], number) <==> j == k
    {
      CatalogueShape(j);
      DigitsLower(rooms[j].roomNumber);
      IncludesSameLength(rooms[j].roomNumber, number);
      if j != k {
        CatalogueNumbersDistinct(j, k);
      }
    }
    MatchingOnly(rooms, number, k);
  }
}
