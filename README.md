# MethanoHunt abundance engine in Dafny

MethanoHunt summarises, per metagenomic sample, the relative abundance of
methane-cycling functional groups. A reference database lists one functional
group per row: a GTDB taxonomy label, an optional subgroup identifier and a
comma-separated list of exception subgroups. Each sample is a profiler table of
`(sample, coverage, taxonomy)` rows. For every group and every sample, the
engine does the following:

- It derives a matching keyword from the group's label.
- It sums the coverage of the sample rows whose taxonomy contains that keyword.
- It subtracts the coverage of the excepted subgroups.
- It floors the result at zero and divides by the sample's total coverage (times 100).

The project models this core of `methanohunt.py`:

- `text.dfy` (module `Text`): the Python string primitives the script relies
  on. These are substring search, `str.split` with its leftmost,
  non-overlapping scan, `str.strip`, and `str.endswith`.
- `database.dfy` (module `Database`): the derived columns of `load_database`.
  The keyword is the last `__`-piece of the label. The exception list is the
  stripped, non-blank comma pieces. `LoadDatabase` is the keyword loop.
- `samples.dfy` (module `Samples`): `get_sample_name`, which removes one
  trailing `_1`.
- `natural_sort.dfy` (module `NaturalSort`): the final ordering of the sample
  columns. It is a stable insertion sort by a caller-supplied comparison.
- `abundance.dfy` (module `Abundance`): `compute_abundances`. Specification
  functions (`Matched`, `ExceptionCoverage`, `RelativeAbundance`, `Process`,
  `Compute`) come with their lemmas. The methods `CoverageByKeyword`,
  `ExceptionCoverageOf`, `SampleAbundances` and `ComputeAbundances` follow the
  script's loops and are proved equal to those functions.
- `scenarios.dfy` (module `Scenarios`): worked examples. These are two groups
  without exceptions, a subtracted subtype, and an over-subtraction floored at
  zero.

Tables arrive already parsed. A pandas NaN cell is `None` in an `Option`. NaN
coverage is skipped by sums, and a NaN taxonomy never matches
(`na=False`). Coverage and percentages are exact `real`s.

The model follows what the code does, including where it differs from the
obvious reading:

- **Keyword.** The `load_database` docstring (methanohunt.py:27) speaks of
  "the last '__'", but the code takes the last piece of Python's
  left-to-right `split("__")`. So `a___b` gives `_b`, not `b`
  (`Database.KeywordOfTripleUnderscore`), and `d__` gives the empty keyword
  (`Database.KeywordOfTrailingSeparator`). An empty keyword matches every
  sample row that has a taxonomy (`Abundance.EmptyKeywordMatchesAll`).
- **Exception_taxonomy column.** A missing `Exception_taxonomy` column is
  added, filled with empty text, so it gives every row an empty exception
  list and it reaches the output header (`Database.BaseOfLoadedColumns`).
- **Empty sample table.** The code reads the sample name from the first row
  before it checks the total. An empty table therefore fails as `EmptySample`,
  not as a zero-coverage table (`Abundance.Rejection`).

## Model

| member | source | states |
|---|---|---|
| Text.Split | methanohunt.py:43 | `str.split(sep)` on a literal separator yields at least one piece |
| Text.SplitJoin | methanohunt.py:43 | joining the pieces with the separator gives back the original text |
| Text.SplitPiecesFree | methanohunt.py:43 | no piece contains the separator |
| Text.SplitWithout | methanohunt.py:42-45 | a text without the separator splits into itself alone |
| Text.SplitWith | methanohunt.py:42-43 | a text with the separator splits into at least two pieces |
| Text.SplitAround | methanohunt.py:37 | splitting `x + sep + y` concatenates the pieces of `x` and `y` when no occurrence straddles the join |
| Text.Strip | methanohunt.py:37 | `str.strip()`: the result is empty or begins and ends with a non-whitespace character |
| Text.StripOccurs | methanohunt.py:37 | the stripped text is a slice of the input with only whitespace on either side |
| Database.Keyword | methanohunt.py:41-46 | the keyword is a suffix of the label and has no `__`; after a `__` when the label has one, the whole label otherwise |
| Database.KeywordOfRankedLabel | methanohunt.py:42-43 | a label `p__k`, where `k` has no `__` and `p` does not end in `_`, yields `k` |
| Database.KeywordOfTrailingSeparator | methanohunt.py:42-43 | `d__` yields the empty keyword |
| Database.KeywordOfTripleUnderscore | methanohunt.py:42-43 | `a___b` yields `_b` (left-to-right split) |
| Database.NonBlankMembers | methanohunt.py:37 | the `if t.strip()` filter keeps exactly the non-blank texts |
| Database.NonBlankAppend | methanohunt.py:37 | the filter keeps order across concatenation |
| Database.TokensMembers | methanohunt.py:37 | a text is a token exactly when it is a non-blank stripped comma piece |
| Database.TokensAppend | methanohunt.py:37 | the tokens of consecutive pieces come out consecutively |
| Database.ExceptionTokens | methanohunt.py:37 | every token is non-empty, has no surrounding whitespace and no comma, and occurs in the text |
| Database.ExceptionTokensJoin | methanohunt.py:37 | the token order follows the comma order: `x,y` gives the tokens of `x` then those of `y` |
| Database.ExceptionTokensSingle | methanohunt.py:37 | a text without commas gives its stripped self, or nothing when it is blank |
| Database.ExceptionList | methanohunt.py:34-38 | a NaN cell gives the empty list |
| Database.NoExceptionsWithoutText | methanohunt.py:32-38 | a missing `Exception_taxonomy` column or a NaN value gives no exceptions |
| Database.LoadedColumns | methanohunt.py:32-34 | the loaded header keeps every column and has `Exception_taxonomy`, `Exception_taxonomy_list` and `keyword` |
| Database.BaseColumns | methanohunt.py:123 | a column is kept exactly when it is neither `keyword` nor `Exception_taxonomy_list` |
| Database.BaseColumnsAppend | methanohunt.py:123 | the filter keeps the original column order |
| Database.BaseOfLoadedColumns | methanohunt.py:123 | the output header is the database's own columns without the derived ones, plus `Exception_taxonomy` when the loader added it |
| Database.LoadDatabase | methanohunt.py:31-48 | fails exactly when `GTDB_taxonomy` is missing or some label is NaN, reporting the first such label; otherwise keeps every row in order, each with its keyword and exception list |
| Samples.SampleName | methanohunt.py:68-71 | a name ending in `_1` loses exactly those two characters; any other name is unchanged |
| Samples.SampleNameOfSuffixed | methanohunt.py:69-70 | removing the suffix undoes appending it |
| Samples.SampleNameStripsOnce | methanohunt.py:69-70 | the suffix is removed once only: `x_1_1` becomes `x_1` |
| NaturalSort.Insert | methanohunt.py:121 | inserting adds the name to the multiset of names |
| NaturalSort.SortBy | methanohunt.py:121 | the sorted names are a permutation of the names |
| NaturalSort.InsertSorted | methanohunt.py:121 | with a total comparison, inserting into a sorted list keeps it sorted |
| NaturalSort.SortBySorted | methanohunt.py:121 | with a total comparison the result is sorted |
| Abundance.TotalAppend | methanohunt.py:93 | the total coverage adds up over concatenated tables |
| Abundance.TotalNonNegative | methanohunt.py:93 | with non-negative coverage the total is non-negative |
| Abundance.MatchedAppend | methanohunt.py:100 | matched coverage adds up over concatenated rows, and one row adds its coverage exactly when its taxonomy contains the keyword |
| Abundance.MatchedBounds | methanohunt.py:100 | with non-negative coverage, matched coverage lies between 0 and the total |
| Abundance.MatchedAll | methanohunt.py:100 | a keyword that every row matches takes the whole total |
| Abundance.EmptyKeywordMatchesAll | methanohunt.py:100 | the empty keyword matches every row that has a taxonomy |
| Abundance.MatchedAntitone | methanohunt.py:100 | with non-negative coverage, a keyword containing another matches no more coverage than it |
| Abundance.IndexOfLastWins | methanohunt.py:82-84 | the subgroup index holds exactly the subgroups some row has, each mapped to the keyword of the last row with it |
| Abundance.SubgroupIndexValues | methanohunt.py:82-84 | every keyword the index yields is some row's keyword |
| Abundance.ExceptionCoverageAppend | methanohunt.py:107-112 | exception coverage adds up over runs of tokens |
| Abundance.ExceptionCoverageNonNegative | methanohunt.py:107-112 | with non-negative coverage an entry never subtracts a negative amount |
| Abundance.ExceptionCoverageUnresolved | methanohunt.py:110-111 | tokens that are unknown or resolve to an empty keyword subtract nothing |
| Abundance.RelativeAbundance | methanohunt.py:114-115 | never negative for a positive total; zero exactly when the exceptions cover the match, for any non-zero total; `(matched - exception) * 100 / total` otherwise; at most 100 when the total is positive, the exceptions are non-negative and the match is within the total |
| Abundance.Abundances | methanohunt.py:103-116 | a sample column has one value per database row |
| Abundance.AbundancesBounds | methanohunt.py:114-116 | with non-negative coverage every value of a column lies in [0, 100] |
| Abundance.Names | methanohunt.py:90-91 | one sample name per table |
| Abundance.ProcessFailure | methanohunt.py:86-95 | the file loop fails exactly when some table is rejected, with the error of the first one |
| Abundance.ProcessNames | methanohunt.py:86-91 | a successful loop read every table and names the tables in file order |
| Abundance.ProcessKeys | methanohunt.py:118 | a successful loop adds one column per distinct sample name |
| Abundance.ProcessUntouched | methanohunt.py:118 | a column that no table names is left as it was |
| Abundance.ProcessLast | methanohunt.py:118 | the column stored under a name is that of the last table with that name |
| Abundance.ComputeFailure | methanohunt.py:86-95 | the run fails exactly when some table is empty or sums to zero, with the first table's error |
| Abundance.ZeroCoverageAborts | methanohunt.py:93-95 | a table whose coverage sums to zero aborts the whole run |
| Abundance.ComputeHeader | methanohunt.py:121-125 | the header is the base columns followed by a permutation of the sample names, sorted when the comparison is total |
| Abundance.ComputeShape | methanohunt.py:118-125 | the result keeps every database row in order; the header is the base columns followed by a permutation of the sample names, sorted when the comparison is total; there is one column per distinct name |
| Abundance.ComputeColumns | methanohunt.py:99-118 | each sample column holds, per database row in order, `max(matched - exception, 0) / total * 100` for the last table with that name |
| Abundance.ComputeBounds | methanohunt.py:114-118 | with non-negative coverage every value in the result lies in [0, 100] |
| Abundance.CoverageByKeyword | methanohunt.py:98-101 | the cache has exactly the database's keywords, each mapped to its matched coverage, so repeated keywords get the same value |
| Abundance.ExceptionCoverageOf | methanohunt.py:107-112 | the `exception_cov +=` loop over cached values computes the entry's exception coverage |
| Abundance.SampleAbundances | methanohunt.py:103-116 | the per-entry loop appends exactly the sample's column |
| Abundance.ComputeAbundances | methanohunt.py:74-125 | the whole function computes the specified result or error |
| Scenarios.TwoGroupsNoExceptions | methanohunt.py:98-116 | coverages 30 / 20 / 50 for `Methanogen`, `Methanotroph` and other give 30 and 20 |
| Scenarios.ExceptionSubtracted | methanohunt.py:82-116 | a group whose subtype (20) is an exception keeps 50 - 20 = 30; the subtype gets 20 |
| Scenarios.OverSubtractionFloored | methanohunt.py:107-115 | exceptions that exceed the match give 0, not a negative value |

## Left out

- Reading and writing TSV files, `glob` discovery, the default database path,
  argparse and `sys.exit`: tables arrive as values, and the result is returned as a value.
- Chart generation (`generate_stacked_bar_chart`) is plotly/HTML rendering and
  is not part of this model.
- The exact `natsorted` order comes from a foreign library. The model takes the
  comparison as a parameter and proves a permutation that is sorted when the
  comparison is total.
- Matching uses a plain substring test. pandas' `str.contains` treats the
  keyword as a regular expression, so keywords are assumed to hold no regex
  metacharacters.
- IEEE floating point and pandas dtype coercion: exact `real` arithmetic stands
  in for the float computation of line 115. A sum that cancels to a float zero
  is not distinguished from an exact zero.
- `str()` of non-text `Exception_taxonomy` cells: the cell is text or NaN.
- Non-text sample identifiers: an empty (NaN) identifier in the first row, or
  a number there when the whole first column is read as numbers (numbers and
  empty cells only), has no `.endswith`, so methanohunt.py:69 raises `AttributeError` and the run
  fails. `SampleRow.sample` is always text, so the model does not capture this
  failure.
- Non-numeric coverage: a coverage cell such as `abc` keeps pandas' `coverage`
  column as text, so the `.sum()` at methanohunt.py:93 concatenates strings
  instead of adding numbers, and the subtraction and division at
  methanohunt.py:114-115 raise `TypeError`, failing the run.
  `SampleRow.coverage` is a number or NaN, so the model cannot express this
  failure.
- Numeric taxonomy labels: an all-numeric `GTDB_taxonomy` column (numbers and
  empty cells only) makes the `"__" in` test at methanohunt.py:42 raise
  `TypeError`, just as a NaN label does. A single number among text labels is
  read as text and handled like any other label. `DbRow.taxonomy` is text or NaN, so only the NaN case is
  modelled (as `NonTextTaxonomy`).
- Non-text subgroups: an all-numeric `Subgroup` column gives the index of
  methanohunt.py:84 numeric keys, which the text tokens of line 110 never
  find. Subgroups here are text or missing, so the model does not capture
  that such exceptions never resolve.
- Empty taxonomy columns: when every taxonomy cell of a sample table is
  empty, pandas types the column as numbers and the `.str` accessor at
  methanohunt.py:100 raises `AttributeError`, failing the run. `Matches`
  treats each missing taxonomy as a non-match instead, so the model returns
  a column of zeros where the script fails.
- A sample name equal to a database column name (for example `keyword`)
  overwrites that column in the script. The model keeps the sample columns in
  their own map, so this collision is not captured.
- Duplicate sample names: the model proves "last write wins" for the stored
  column, and the name is listed once per table in the header.
- A sample table with a column count other than three raises a `ValueError` in
  the script. Sample rows here always have exactly three fields.
- Whitespace: `IsSpace` lists the characters Python's `str.isspace` accepts.
  No other Unicode processing is modelled.
