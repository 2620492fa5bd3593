/**
 * The admin seat grid: a fixed 20 x 20 roster of sector-A seat ids, and the
 * local seat-to-colour state that the polled server map and each successful
 * colour change are merged into.
 */
module SeatGrid {
  import opened Basics
  import Events

  const Rows: int := 20
  const Cols: int := 20

  /** One cell of the grid; `caption` is its `label`, which equals its id. */
  datatype SeatCell = SeatCell(id: string, caption: string)

  /** The decimal digit `d`. */
  function Digit(d: nat): (c: char)
    requires d < 10
    ensures '0' <= c <= '9' && c as int - '0' as int == d
  {
    (48 + d) as char
  }

  /** `String(n).padStart(2, '0')` for a number below 100. */
  function PadTwo(n: nat): (r: string)
    requires n < 100
    ensures |r| == 2 && '-' !in r
    ensures '0' <= r[0] <= '9' && '0' <= r[1] <= '9'
    ensures (r[0] as int - '0' as int) * 10 + (r[1] as int - '0' as int) == n
  {
    [Digit(n / 10), Digit(n % 10)]
  }

  /** Different numbers below 100 pad to different strings. */
  lemma PadTwoInjective(a: nat, b: nat)
    requires a < 100 && b < 100 && PadTwo(a) == PadTwo(b)
    ensures a == b
  {
    assert PadTwo(a)[0] == PadTwo(b)[0] && PadTwo(a)[1] == PadTwo(b)[1];
    assert a / 10 == b / 10 && a % 10 == b % 10;
  }

  /** The id of the `i`-th seat: `A-rr-nn` with 1-based, zero-padded row and number. */
  function SeatId(i: nat): (id: string)
    requires i < Rows * Cols
    ensures |id| == 7 && id[..2] == "A-" && id[4] == '-'
    ensures id[2..4] == PadTwo(i / Cols + 1) && id[5..] == PadTwo(i % Cols + 1)
  {
    "A-" + PadTwo(i / Cols + 1) + "-" + PadTwo(i % Cols + 1)
  }

  /** `SEATS`: 400 cells in row-major order. */
  function Seats(): (seats: seq<SeatCell>)
    ensures |seats| == Rows * Cols
    ensures forall i :: 0 <= i < |seats| ==> seats[i].id == SeatId(i) && seats[i].caption == seats[i].id
  {
    seq(Rows * Cols, i requires 0 <= i < Rows * Cols => SeatCell(SeatId(i), SeatId(i)))
  }

  /** The store's seat-id parser reads every grid id back as sector A and the cell's row and number. */
  lemma GridIdParses(i: nat)
    requires i < Rows * Cols
    ensures Events.ParseSeatId(SeatId(i)) == Events.Seat(SeatId(i), "A", PadTwo(i / Cols + 1), PadTwo(i % Cols + 1))
  {
    assert SeatId(i) == "A" + "-" + PadTwo(i / Cols + 1) + "-" + PadTwo(i % Cols + 1);
    Events.ParseThreeParts("A", PadTwo(i / Cols + 1), PadTwo(i % Cols + 1));
  }

  /** All grid ids are distinct. */
  lemma GridIdsDistinct(i: nat, j: nat)
    requires i < Rows * Cols && j < Rows * Cols && i != j
    ensures Seats()[i].id != Seats()[j].id
  {
    var a, b := SeatId(i), SeatId(j);
    if i / Cols != j / Cols {
      assert a[2..4] != b[2..4];
    } else {
      assert i % Cols != j % Cols;
      assert a[5..] != b[5..];
    }
  }

  /** The local map after the server map is spread over it: server colours win, nothing is removed. */
  function Merged(local: map<string, string>, server: map<string, string>): (r: map<string, string>)
    ensures r.Keys == local.Keys + server.Keys
    ensures forall k :: k in server ==> r[k] == server[k]
    ensures forall k :: k in local && k !in server ==> r[k] == local[k]
  {
    local + server
  }

  class SeatGridState {
    var seatColors: map<string, string>
    var selectedSeat: Option<string>

    constructor ()
      ensures seatColors == map[] && selectedSeat == None
    {
      seatColors, selectedSeat := map[], None;
    }

    /** The effect on a new server map: merge it in when it is present. */
    method ApplyServerMap(serverMap: Option<map<string, string>>)
      modifies this
      ensures seatColors == if serverMap.Some? then Merged(old(seatColors), serverMap.value) else old(seatColors)
      ensures selectedSeat == old(selectedSeat)
    {
      if serverMap.Some? {
        seatColors := seatColors + serverMap.value;
      }
    }

    /** `colorMutation.onSuccess`: record the new colour of that seat and close the picker. */
    method OnColorSaved(seatId: string, color: string)
      modifies this
      ensures seatColors == old(seatColors)[seatId := color]
      ensures selectedSeat == None
    {
      seatColors := seatColors[seatId := color];
      selectedSeat := None;
    }
  }
}
