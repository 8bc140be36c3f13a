/** Per-sample coverage tables (the profiler's long format) and the sample
    identifier taken from them (`get_sample_name`). */
module Samples {
  import opened Wrappers
  import opened Text

  /** One row of a sample table: sample identifier, coverage, taxonomy.
      `None` is an empty cell, read by pandas as NaN. */
  datatype SampleRow = SampleRow(sample: string, coverage: Option<real>, taxonomy: Option<string>)

  /** A sample table as read from the file at `path`, header dropped. */
  datatype SampleFile = SampleFile(path: string, rows: seq<SampleRow>)

  /** The read-number suffix some profilers append to the sample name. */
  const ReadSuffix := "_1"

  /** The sample identifier: the name with one trailing `_1` removed. */
  function SampleName(id: string): (name: string)
    ensures EndsWith(id, ReadSuffix) ==> name + ReadSuffix == id
    ensures !EndsWith(id, ReadSuffix) ==> name == id
  {
    if EndsWith(id, ReadSuffix) then id[..|id| - 2] else id
  }

  /** Removing the suffix undoes appending it, for any name. */
  lemma SampleNameOfSuffixed(name: string)
    ensures SampleName(name + ReadSuffix) == name
  {
    assert EndsWith(name + ReadSuffix, ReadSuffix);
    assert (name + ReadSuffix)[..|name|] == name;
  }

  /** The suffix is removed once only: `x_1_1` becomes `x_1`. */
  lemma SampleNameStripsOnce(name: string)
    ensures SampleName(name + ReadSuffix + ReadSuffix) == name + ReadSuffix
    ensures SampleName(SampleName(name + ReadSuffix + ReadSuffix)) == name
  {
    SampleNameOfSuffixed(name + ReadSuffix);
    SampleNameOfSuffixed(name);
  }
}
