/** The field catalogue of the sm13MT2 inverter: every command code the poller
    may request, its readable name and how its answer is decoded, plus the
    two code sets the zero-forcing policy uses. */
module Catalog {

  /** The numeric scale factors of the table, as exact rationals. */
  datatype Factor = One | Half | Tenth | Hundredth {
    function Real(): (r: real)
      ensures 0.0 < r <= 1.0
    {
      match this
      case One => 1.0
      case Half => 0.5
      case Tenth => 0.1
      case Hundredth => 0.01
    }
  }

  /** How the answer to a code is decoded: a `'datetime'` stamp, the raw
      text (`''`) or a hex number times a factor. */
  datatype Kind = Stamp | RawText | Scale(factor: Factor)

  datatype FieldSpec = FieldSpec(name: string, kind: Kind)

  /** The codes of the query table, in table order. */
  const Codes: seq<string> := [
    "SDAT", "FDAT", "ADR", "TYP", "MAC",
    "PIN", "SYS", "SAL", "LAN", "SWV", "BDN", "CAC",
    "KDY", "KYR", "KLY", "KMT", "KLM", "KT0", "KHR",
    "PDC", "PAC", "PRL",
    "TNF", "TKK",
    "UL1", "UL2", "UL3",
    "IL1", "IL2", "IL3",
    "UD01", "UD02", "UD03",
    "ID01", "ID02", "ID03",
    "DIN"]

  /** The query table: code to name and decoding rule. */
  const QueryMap: map<string, FieldSpec> := map[
    "SDAT" := FieldSpec("actual timestamp", Stamp),
    "FDAT" := FieldSpec("first timestamp", Stamp),
    "ADR" := FieldSpec("Address", RawText),
    "TYP" := FieldSpec("Type", Scale(One)),
    "MAC" := FieldSpec("MAC Address", RawText),
    "PIN" := FieldSpec("Installed Power (W)", Scale(One)),
    "SYS" := FieldSpec("System Status", RawText),
    "SAL" := FieldSpec("System Alarms", Scale(One)),
    "LAN" := FieldSpec("Language", Scale(One)),
    "SWV" := FieldSpec("Software Version", Scale(One)),
    "BDN" := FieldSpec("Build number", Scale(One)),
    "CAC" := FieldSpec("Start Ups", Scale(One)),
    "KDY" := FieldSpec("Energy today (kWh)", Scale(Tenth)),
    "KYR" := FieldSpec("Energy this year (kWh)", Scale(One)),
    "KLY" := FieldSpec("Energy last year (kWh)", Scale(One)),
    "KMT" := FieldSpec("Energy this month (kWh)", Scale(One)),
    "KLM" := FieldSpec("Energy last month (kWh)", Scale(One)),
    "KT0" := FieldSpec("Total Energy (kWh)", Scale(One)),
    "KHR" := FieldSpec("Operating Hours", Scale(One)),
    "PDC" := FieldSpec("DC Power (W)", Scale(Half)),
    "PAC" := FieldSpec("AC Power (W)", Scale(Half)),
    "PRL" := FieldSpec("Relative power (%)", Scale(One)),
    "TNF" := FieldSpec("Generated frequency (Hz)", Scale(Hundredth)),
    "TKK" := FieldSpec("Inverter Temparature (C)", Scale(One)),
    "UL1" := FieldSpec("AC Voltage Phase 1 (V)", Scale(Tenth)),
    "UL2" := FieldSpec("AC Voltage Phase 2 (V)", Scale(Tenth)),
    "UL3" := FieldSpec("AC Voltage Phase 3 (V)", Scale(Tenth)),
    "IL1" := FieldSpec("AC Current Phase 1 (A)", Scale(Hundredth)),
    "IL2" := FieldSpec("AC Current Phase 2 (A)", Scale(Hundredth)),
    "IL3" := FieldSpec("AC Current Phase 3 (A)", Scale(Hundredth)),
    "UD01" := FieldSpec("String 1 Voltage (V)", Scale(Tenth)),
    "UD02" := FieldSpec("String 2 Voltage (V)", Scale(Tenth)),
    "UD03" := FieldSpec("String 3 Voltage (V)", Scale(Tenth)),
    "ID01" := FieldSpec("String 1 Current (A)", Scale(Hundredth)),
    "ID02" := FieldSpec("String 2 Current (A)", Scale(Hundredth)),
    "ID03" := FieldSpec("String 3 Current (A)", Scale(Hundredth)),
    "DIN" := FieldSpec("DIN", RawText)]

  /** Instantaneous readings, meaningless once the inverter is down. */
  const Momentaries: set<string> := {
    "PDC", "PAC", "PRL", "TNF", "TKK", "UL1", "UL2", "UL3", "IL1", "IL2", "IL3",
    "UD01", "UD02", "UD03", "ID01", "ID02", "ID03"}

  /** Daily accumulators. */
  const Dailys: set<string> := {"KDY"}

  /** The ordered code list and the table hold the same codes. */
  lemma CodesAreTheTable()
    ensures forall i :: 0 <= i < |Codes| ==> Codes[i] in QueryMap
    ensures forall k :: k in QueryMap ==> k in Codes
  {
  }

  /** Every momentary code is a numeric field of the table. */
  lemma MomentariesAreScaled()
    ensures forall k :: k in Momentaries ==> k in QueryMap && QueryMap[k].kind.Scale?
  {
    forall k | k in Momentaries ensures k in QueryMap && QueryMap[k].kind.Scale? {
      assert k in QueryMap;
    }
  }

  /** The daily codes are numeric fields too, and no code is both momentary and
      daily; the timestamp is neither. */
  lemma DailysAreScaled()
    ensures forall k :: k in Dailys ==> k in QueryMap && QueryMap[k].kind.Scale?
    ensures Momentaries !! Dailys
    ensures "SDAT" !in Momentaries && "SDAT" !in Dailys
  {
    assert "KDY" in QueryMap;
  }
}
