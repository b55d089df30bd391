/** Activity kind normalisation (scripts/enrich_dataset.py, lines 86-97). */
module ActivityLabels {
  import opened Common
  import PointAccumulator

  /** Labels with a short form; other labels are kept as they are. */
  const TypeMap: map<string, string> := map[
    "Ride" := "Road",
    "VirtualRide" := "Virtual",
    "GravelRide" := "Gravel",
    "MountainBikeRide" := "MTB",
    "Run" := "Run",
    "TrailRun" := "Trail",
    "Walk" := "Walk",
    "Hike" := "Hike",
    "EBikeRide" := "E-Bike"]

  /** Label of a missing activity type. */
  const Unlabelled: string := "Other"

  /** The `activity_short` value of an activity type: its short form when
      the table has one, the kind itself otherwise, "Other" when absent. */
  function ShortName(kind: Option<string>): (r: string)
    ensures kind.Some? && kind.value in TypeMap ==> r == TypeMap[kind.value]
    ensures kind.Some? && kind.value !in TypeMap ==> r == kind.value
    ensures kind.None? ==> r == Unlabelled
  {
    match kind
    case None => Unlabelled
    case Some(l) => if l in TypeMap then TypeMap[l] else l
  }

  /** Normalising a normalised kind changes nothing: no short form is
      itself a kind with a different short form. */
  lemma ShortNameIdempotent(kind: Option<string>)
    ensures ShortName(Some(ShortName(kind))) == ShortName(kind)
  {
    forall l | l in TypeMap
      ensures TypeMap[l] !in TypeMap || TypeMap[TypeMap[l]] == TypeMap[l]
    {
    }
    assert Unlabelled !in TypeMap;
  }

  /** Cells `read_csv` reads as a missing value by default: the empty cell
      and the usual spellings of "not available". */
  const NaStrings: set<string> := {
    "", "#N/A", "#N/A N/A", "#NA", "-1.#IND", "-1.#QNAN", "-NaN", "-nan",
    "1.#IND", "1.#QNAN", "<NA>", "N/A", "NA", "NULL", "NaN", "None",
    "n/a", "nan", "null"}

  /** How a CSV cell holding an activity type is read back: a cell spelling
      "not available", the empty cell included, is a missing value. */
  function ReadLabel(cell: string): (kind: Option<string>)
    ensures kind.None? <==> cell in NaStrings
    ensures kind.Some? ==> kind.value == cell
  {
    if cell in NaStrings then None else Some(cell)
  }

  /** A track's type written to the raw dataset and read back: a track
      without a type, or whose type is read as missing, ends up "Other";
      any other type is normalised as itself. */
  lemma WrittenKindReadBack(kind: Option<string>)
    ensures kind.None? || kind.value in NaStrings ==>
      ShortName(ReadLabel(PointAccumulator.KindName(kind))) == Unlabelled
    ensures kind.Some? && kind.value !in NaStrings ==>
      ShortName(ReadLabel(PointAccumulator.KindName(kind))) == ShortName(kind)
  {
  }

  /** The empty cell written for an untyped track and a track typed "NA"
      both come back as "Other"; a "Ride" comes back as "Road". */
  lemma ReadBackExamples()
    ensures ShortName(ReadLabel(PointAccumulator.KindName(None))) == "Other"
    ensures ShortName(ReadLabel(PointAccumulator.KindName(Some("NA")))) == "Other"
    ensures ShortName(ReadLabel(PointAccumulator.KindName(Some("Ride")))) == "Road"
  {
  }
}
