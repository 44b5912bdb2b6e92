/** The helipad record that the parser creates, the matcher fills in and the
    view models toggle, all in place. */
module Models {
  import opened Wrappers

  /** `DateTime` ticks. */
  type Timestamp = int

  /** The matcher's part of a record: the candidate scenery files in
      discovery order, the selected file (absent when nothing matched) and
      whether the helipad counts as enabled. */
  datatype Selection = Selection(candidates: seq<string>, path: Option<string>, enabled: bool)

  /** The selection of a record nothing has been matched to yet. */
  const Unmatched: Selection := Selection([], None, false)

  class Helipad {
    var icao: string
    var name: string
    var latitude: real
    var longitude: real
    var candidateSceneryFiles: seq<string>
    var sceneryFilePath: Option<string>
    var isEnabled: bool
    var lastScanTimestamp: Timestamp

    /** A new record: empty identifier and name, zero coordinates, no
        candidates, no selected file, not enabled, stamped `now`. */
    constructor (now: Timestamp)
      ensures icao == "" && name == "" && latitude == 0.0 && longitude == 0.0
      ensures Matching() == Unmatched
      ensures lastScanTimestamp == now
    {
      icao := "";
      name := "";
      latitude := 0.0;
      longitude := 0.0;
      candidateSceneryFiles := [];
      sceneryFilePath := None;
      isEnabled := false;
      lastScanTimestamp := now;
    }

    /** The matcher's part of this record. */
    function Matching(): Selection
      reads this
    {
      Selection(candidateSceneryFiles, sceneryFilePath, isEnabled)
    }
  }
}
