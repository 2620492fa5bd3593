/**
 * The QR scanner screen's handler: a `scanned` flag that lets one scan
 * through at a time, extraction of the seat id from the payload (the last
 * '/'-separated segment of a URL, or the payload itself), and the length check
 * that decides between opening the pixel screen and rejecting the code.
 */
module Scanner {
  import opened Basics
  import opened Strings
  import QrStickers

  /** Ids of this length or longer are rejected. */
  const MaxSeatIdLength: int := 20
  const InvalidCodeMessage: string := "QR Code inv\U{E1}lido: "

  /** The effect of one scan event. */
  datatype ScanOutcome = Ignored | Navigate(seatId: string) | Rejected(alert: string)

  /** The seat id carried by a QR payload. */
  function ExtractSeatId(data: string): (seatId: string)
    ensures !StartsWith(data, "http") ==> seatId == data
    ensures StartsWith(data, "http") ==>
      && '/' !in seatId
      && |seatId| <= |data| && data[|data| - |seatId|..] == seatId
      && (|seatId| < |data| ==> data[|data| - |seatId| - 1] == '/')
  {
    if StartsWith(data, "http") then
      SplitPartsFree(data, '/');
      SplitLastIsSuffix(data, '/');
      Last(Split(data, '/'))
    else data
  }

  /** What a scan does when the screen is not already busy. */
  function ScanDecision(data: string): (o: ScanOutcome)
    ensures o.Navigate? <==> data != [] && |ExtractSeatId(data)| < MaxSeatIdLength
    ensures o.Navigate? ==> o.seatId == ExtractSeatId(data)
    ensures !o.Navigate? ==> o == Rejected(InvalidCodeMessage + data)
  {
    if data != [] && |ExtractSeatId(data)| < MaxSeatIdLength then Navigate(ExtractSeatId(data))
    else Rejected(InvalidCodeMessage + data)
  }

  /** The scanner reads back the seat id the sticker generator encoded. */
  lemma StickerPayloadRoundTrip(seatId: string)
    requires '/' !in seatId
    ensures ExtractSeatId(QrStickers.QrPayload(seatId)) == seatId
  {
    var d := QrStickers.Domain;
    assert QrStickers.QrPayload(seatId) == d + ['/'] + seatId;
    assert StartsWith(QrStickers.QrPayload(seatId), "http");
    SplitAppend(d, seatId, '/');
  }

  /** A sticker for a short seat id opens the pixel screen for exactly that seat. */
  lemma StickerOpensPixelScreen(seatId: string)
    requires '/' !in seatId && |seatId| < MaxSeatIdLength
    ensures ScanDecision(QrStickers.QrPayload(seatId)) == Navigate(seatId)
  {
    StickerPayloadRoundTrip(seatId);
  }

  /** A URL ending in '/' passes the length check with an empty seat id. */
  lemma TrailingSlashGivesEmptyId(data: string)
    requires StartsWith(data, "http") && data[|data| - 1] == '/'
    ensures ScanDecision(data) == Navigate("")
  {
  }

  class ScannerScreen {
    var scanned: bool

    constructor ()
      ensures !scanned
    {
      scanned := false;
    }

    /**
     * `handleBarCodeScanned`: ignored while a scan is being handled; otherwise
     * the flag stays set exactly when the pixel screen is opened.
     */
    method HandleBarCodeScanned(data: string) returns (o: ScanOutcome)
      modifies this
      ensures old(scanned) ==> o == Ignored && scanned
      ensures !old(scanned) ==> o == ScanDecision(data) && (scanned <==> o.Navigate?)
    {
      if scanned {
        return Ignored;
      }
      scanned := true;
      if data != [] {
        var seatId := data;
        if StartsWith(data, "http") {
          var parts := Split(data, '/');
          seatId := parts[|parts| - 1];
        }
        if |seatId| < MaxSeatIdLength {
          return Navigate(seatId);
        }
      }
      scanned := false;
      return Rejected(InvalidCodeMessage + data);
    }
  }
}
