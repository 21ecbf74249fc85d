/** The fixed URLs and the table of statuses each PEP index code allows. */
module Constants {

  const MainDocUrl := "https://docs.python.org/3/"
  const PepDocUrl := "https://peps.python.org/"

  /** Status code shown in the PEP index (the letter after the type glyph)
      to the statuses a PEP page under that code may show. */
  const ExpectedStatus: map<string, seq<string>> := map[
    "A" := ["Active", "Accepted"],
    "D" := ["Deferred"],
    "F" := ["Final"],
    "P" := ["Provisional"],
    "R" := ["Rejected"],
    "S" := ["Superseded"],
    "W" := ["Withdrawn"],
    "" := ["Draft", "Active"]
  ]

  /** The table covers exactly the eight codes of the index. */
  lemma ExpectedStatusCodes()
    ensures ExpectedStatus.Keys == {"A", "D", "F", "P", "R", "S", "W", ""}
  {
  }

  /** What each code allows, code by code. */
  lemma ExpectedStatusEntries()
    ensures ExpectedStatus[""] == ["Draft", "Active"]
    ensures ExpectedStatus["A"] == ["Active", "Accepted"]
    ensures ExpectedStatus["D"] == ["Deferred"] && ExpectedStatus["F"] == ["Final"]
    ensures ExpectedStatus["P"] == ["Provisional"] && ExpectedStatus["R"] == ["Rejected"]
    ensures ExpectedStatus["S"] == ["Superseded"] && ExpectedStatus["W"] == ["Withdrawn"]
  {
  }

  /** No code allows nothing, and "Active" is allowed both for accepted
      PEPs and for PEPs without a code. */
  lemma ExpectedStatusShape()
    ensures forall code :: code in ExpectedStatus ==> |ExpectedStatus[code]| >= 1
    ensures "Active" in ExpectedStatus["A"] && "Active" in ExpectedStatus[""]
  {
  }
}
