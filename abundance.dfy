/** The abundance engine (`compute_abundances`): for every sample table,
    the coverage matched by each database keyword, minus the coverage of the
    entry's excluded subgroups, floored at zero and expressed as a
    percentage of the sample's total coverage. */
module Abundance {
  import opened Wrappers
  import opened Text
  import opened Database
  import opened Samples
  import opened NaturalSort

  datatype EngineError =
    | EmptySample(path: string)    // IndexError: `df.iloc[0, 0]` on a table without rows
    | ZeroCoverage(path: string)   // RuntimeError: "Total coverage is zero in file: ..."

  /** One sample's column: its identifier and one percentage per entry. */
  datatype Column = Column(name: string, values: seq<real>)

  /** The sample columns gathered so far, in processing order. */
  datatype Collected = Collected(names: seq<string>, values: map<string, seq<real>>)

  /** The output: header, the database rows in order, and the sample
      columns by name. */
  datatype ResultsTable = ResultsTable(columns: seq<string>, rows: seq<DbRow>, samples: map<string, seq<real>>)

  // ---------------------------------------------------------------------
  // Coverage sums

  /** A row's coverage as pandas sums it: a missing value counts as 0. */
  function Coverage(r: SampleRow): real {
    r.coverage.GetOr(0.0)
  }

  /** `str.contains(keyword, na=False)`: a plain substring test; a missing
      taxonomy never matches. */
  predicate Matches(r: SampleRow, keyword: string) {
    r.taxonomy.Some? && Contains(r.taxonomy.value, keyword)
  }

  predicate NonNegative(rows: seq<SampleRow>) {
    forall r :: r in rows ==> Coverage(r) >= 0.0
  }

  /** `df["coverage"].sum()`. */
  function Total(rows: seq<SampleRow>): real {
    if rows == [] then 0.0 else Coverage(rows[0]) + Total(rows[1..])
  }

  /** The coverage of the rows whose taxonomy contains `keyword`. */
  function Matched(rows: seq<SampleRow>, keyword: string): real {
    if rows == [] then 0.0
    else (if Matches(rows[0], keyword) then Coverage(rows[0]) else 0.0) + Matched(rows[1..], keyword)
  }

  lemma {:induction false} TotalAppend(a: seq<SampleRow>, b: seq<SampleRow>)
    ensures Total(a + b) == Total(a) + Total(b)
  {
    if a == [] {
      assert a + b == b;
    } else {
      assert (a + b)[0] == a[0] && (a + b)[1..] == a[1..] + b;
      TotalAppend(a[1..], b);
    }
  }

  /** Matched coverage adds up over consecutive runs of rows, and a single
      row contributes its coverage exactly when it matches: it is the sum
      of coverage over exactly the matching rows. */
  lemma {:induction false} MatchedAppend(a: seq<SampleRow>, b: seq<SampleRow>, keyword: string)
    ensures Matched(a + b, keyword) == Matched(a, keyword) + Matched(b, keyword)
    ensures Matched([], keyword) == 0.0
    ensures forall r :: Matched([r], keyword) == if Matches(r, keyword) then Coverage(r) else 0.0
  {
    if a == [] {
      assert a + b == b;
    } else {
      assert (a + b)[0] == a[0] && (a + b)[1..] == a[1..] + b;
      MatchedAppend(a[1..], b, keyword);
    }
    forall r ensures Matched([r], keyword) == if Matches(r, keyword) then Coverage(r) else 0.0 {
      assert [r][1..] == [];
    }
  }

  /** With non-negative coverage, the matched coverage of any keyword lies
      between 0 and the total coverage. */
  lemma {:induction false} MatchedBounds(rows: seq<SampleRow>, keyword: string)
    requires NonNegative(rows)
    ensures 0.0 <= Matched(rows, keyword) <= Total(rows)
  {
    if rows != [] {
      assert rows[0] in rows;
      assert NonNegative(rows[1..]) by {
        forall r | r in rows[1..] ensures Coverage(r) >= 0.0 {
          assert r in rows;
        }
      }
      MatchedBounds(rows[1..], keyword);
    }
  }

  /** A keyword that every row matches takes the whole coverage. */
  lemma {:induction false} MatchedAll(rows: seq<SampleRow>, keyword: string)
    requires forall r :: r in rows ==> Matches(r, keyword)
    ensures Matched(rows, keyword) == Total(rows)
  {
    if rows != [] {
      assert rows[0] in rows;
      assert forall r :: r in rows[1..] ==> r in rows;
      MatchedAll(rows[1..], keyword);
    }
  }

  /** The empty keyword (from a label such as `d__`) matches every row
      with a taxonomy. */
  lemma EmptyKeywordMatchesAll(rows: seq<SampleRow>)
    requires forall r :: r in rows ==> r.taxonomy.Some?
    ensures Matched(rows, "") == Total(rows)
  {
    forall r | r in rows ensures Matches(r, "") {
      assert OccursAt(r.taxonomy.value, "", 0);
    }
    MatchedAll(rows, "");
  }

  /** Substring matching over-matches: a keyword that contains another
      matches a subset of its rows, so with non-negative coverage its
      matched coverage is no larger. */
  lemma {:induction false} MatchedAntitone(rows: seq<SampleRow>, shorter: string, longer: string)
    requires NonNegative(rows) && Contains(longer, shorter)
    ensures Matched(rows, longer) <= Matched(rows, shorter)
  {
    if rows != [] {
      assert rows[0] in rows;
      if Matches(rows[0], longer) {
        ContainsTransitive(rows[0].taxonomy.value, longer, shorter);
      }
      assert NonNegative(rows[1..]) by {
        forall r | r in rows[1..] ensures Coverage(r) >= 0.0 {
          assert r in rows;
        }
      }
      MatchedAntitone(rows[1..], shorter, longer);
    }
  }

  lemma {:induction false} TotalNonNegative(rows: seq<SampleRow>)
    requires NonNegative(rows)
    ensures Total(rows) >= 0.0
  {
    MatchedBounds(rows, "");
  }

  // ---------------------------------------------------------------------
  // Subgroup index and exception coverage

  /** `dict(zip(Subgroup, keyword))` over the rows that have a subgroup:
      built in row order, so a later row wins for a repeated subgroup. */
  function IndexOf(entries: seq<Entry>): map<string, string>
    decreases |entries|
  {
    if entries == [] then map[]
    else
      var m := IndexOf(entries[..|entries| - 1]);
      var e := entries[|entries| - 1];
      match e.row.subgroup
      case Some(s) => m[s := e.keyword]
      case None => m
  }

  /** The subgroup index; empty when the database has no `Subgroup` column. */
  function SubgroupIndex(db: Database): map<string, string> {
    if SubgroupColumn in db.columns then IndexOf(db.entries) else map[]
  }

  /** Row `j` is the last row whose subgroup is `s`. */
  predicate LastWithSubgroup(entries: seq<Entry>, s: string, j: int) {
    && 0 <= j < |entries|
    && entries[j].row.subgroup == Some(s)
    && forall k :: j < k < |entries| ==> entries[k].row.subgroup != Some(s)
  }

  /** The index holds exactly the subgroups that some row has, each mapped
      to the keyword of the last row with it. */
  lemma {:induction false} IndexOfLastWins(entries: seq<Entry>, s: string)
    ensures s in IndexOf(entries) <==> exists j :: 0 <= j < |entries| && entries[j].row.subgroup == Some(s)
    ensures s in IndexOf(entries) ==>
              exists j :: LastWithSubgroup(entries, s, j) && IndexOf(entries)[s] == entries[j].keyword
    decreases |entries|
  {
    if entries != [] {
      var n := |entries| - 1;
      var init := entries[..n];
      IndexOfLastWins(init, s);
      assert forall j :: 0 <= j < n ==> init[j] == entries[j];
      if entries[n].row.subgroup == Some(s) {
        assert LastWithSubgroup(entries, s, n);
      } else if s in IndexOf(entries) {
        var j :| LastWithSubgroup(init, s, j) && IndexOf(init)[s] == init[j].keyword;
        assert LastWithSubgroup(entries, s, j);
      }
    }
  }

  /** Every keyword the index resolves to is the keyword of some row. */
  lemma SubgroupIndexValues(db: Database)
    ensures forall s :: s in SubgroupIndex(db) ==>
              exists j :: 0 <= j < |db.entries| && SubgroupIndex(db)[s] == db.entries[j].keyword
  {
    forall s | s in SubgroupIndex(db)
      ensures exists j :: 0 <= j < |db.entries| && SubgroupIndex(db)[s] == db.entries[j].keyword
    {
      IndexOfLastWins(db.entries, s);
    }
  }

  /** `subgroup_to_keyword.get(exc)` followed by `if exc_keyword:`: a token
      resolves when the index has it and its keyword is not empty. */
  function Resolve(token: string, index: map<string, string>): Option<string> {
    if token in index && index[token] != "" then Some(index[token]) else None
  }

  /** The coverage one exception token subtracts. */
  function TokenCoverage(token: string, index: map<string, string>, rows: seq<SampleRow>): real {
    match Resolve(token, index)
    case Some(keyword) => Matched(rows, keyword)
    case None => 0.0
  }

  /** The coverage an entry's exception tokens subtract, in token order. */
  function ExceptionCoverage(tokens: seq<string>, index: map<string, string>, rows: seq<SampleRow>): real
    decreases |tokens|
  {
    if tokens == [] then 0.0
    else ExceptionCoverage(tokens[..|tokens| - 1], index, rows) + TokenCoverage(tokens[|tokens| - 1], index, rows)
  }

  /** Exception coverage is the sum of the matched coverage of the resolved
      tokens: it adds up over runs of tokens, and unresolved tokens and
      tokens that resolve to an empty keyword contribute nothing. */
  lemma {:induction false} ExceptionCoverageAppend(a: seq<string>, b: seq<string>, index: map<string, string>, rows: seq<SampleRow>)
    ensures ExceptionCoverage(a + b, index, rows) == ExceptionCoverage(a, index, rows) + ExceptionCoverage(b, index, rows)
    ensures forall t :: ExceptionCoverage([t], index, rows) ==
              if t in index && index[t] != "" then Matched(rows, index[t]) else 0.0
    decreases |b|
  {
    if b == [] {
      assert a + b == a;
    } else {
      var n := |b| - 1;
      assert (a + b)[..|a + b| - 1] == a + b[..n];
      assert (a + b)[|a + b| - 1] == b[n];
      ExceptionCoverageAppend(a, b[..n], index, rows);
    }
    forall t ensures ExceptionCoverage([t], index, rows) ==
                     if t in index && index[t] != "" then Matched(rows, index[t]) else 0.0 {
      assert [t][..0] == [];
    }
  }

  /** With non-negative coverage nothing subtracts a negative amount. */
  lemma {:induction false} ExceptionCoverageNonNegative(tokens: seq<string>, index: map<string, string>, rows: seq<SampleRow>)
    requires NonNegative(rows)
    ensures ExceptionCoverage(tokens, index, rows) >= 0.0
    decreases |tokens|
  {
    if tokens != [] {
      ExceptionCoverageNonNegative(tokens[..|tokens| - 1], index, rows);
      match Resolve(tokens[|tokens| - 1], index)
      case Some(keyword) => MatchedBounds(rows, keyword);
      case None =>
    }
  }

  /** An entry none of whose tokens resolves subtracts nothing. */
  lemma {:induction false} ExceptionCoverageUnresolved(tokens: seq<string>, index: map<string, string>, rows: seq<SampleRow>)
    requires forall t :: t in tokens ==> Resolve(t, index).None?
    ensures ExceptionCoverage(tokens, index, rows) == 0.0
    decreases |tokens|
  {
    if tokens != [] {
      assert tokens[|tokens| - 1] in tokens;
      assert forall t :: t in tokens[..|tokens| - 1] ==> t in tokens;
      ExceptionCoverageUnresolved(tokens[..|tokens| - 1], index, rows);
    }
  }

  // ---------------------------------------------------------------------
  // Relative abundance

  /** `(max(matched - exception, 0) / total) * 100`. It is never negative
      for a positive total, is zero exactly when the exceptions cover the
      match (whatever the sign of the total), scales the remainder by 100 / total otherwise, and is at most
      100 when the exceptions are non-negative and the match is within the
      total. */
  function RelativeAbundance(matched: real, exception: real, total: real): (a: real)
    requires total != 0.0
    ensures total > 0.0 ==> a >= 0.0
    ensures a == 0.0 <==> matched <= exception
    ensures matched > exception ==> a * total == (matched - exception) * 100.0
    ensures total > 0.0 && exception >= 0.0 && matched <= total ==> a <= 100.0
  {
    var adjusted := matched - exception;
    var kept := if adjusted > 0.0 then adjusted else 0.0;
    var a := (kept / total) * 100.0;
    assert a * total == kept * 100.0;
    assert a == 0.0 <==> kept == 0.0;
    assert total > 0.0 ==> (a >= 0.0 <==> kept >= 0.0);
    assert total > 0.0 && exception >= 0.0 && matched <= total ==> kept <= total;
    a
  }

  /** The percentage of one entry in one sample. */
  function EntryAbundance(e: Entry, index: map<string, string>, rows: seq<SampleRow>, total: real): real
    requires total != 0.0
  {
    RelativeAbundance(Matched(rows, e.keyword), ExceptionCoverage(e.exceptions, index, rows), total)
  }

  /** A sample's column: one percentage per entry, in entry order. */
  function Abundances(entries: seq<Entry>, index: map<string, string>, rows: seq<SampleRow>, total: real): (col: seq<real>)
    requires total != 0.0
    ensures |col| == |entries|
  {
    seq(|entries|, j requires 0 <= j < |entries| => EntryAbundance(entries[j], index, rows, total))
  }

  /** With non-negative coverage every percentage of a sample lies in
      [0, 100]. */
  lemma AbundancesBounds(entries: seq<Entry>, index: map<string, string>, rows: seq<SampleRow>)
    requires NonNegative(rows) && Total(rows) != 0.0
    ensures forall j :: 0 <= j < |entries| ==>
              0.0 <= Abundances(entries, index, rows, Total(rows))[j] <= 100.0
  {
    TotalNonNegative(rows);
    forall j | 0 <= j < |entries|
      ensures 0.0 <= Abundances(entries, index, rows, Total(rows))[j] <= 100.0
    {
      MatchedBounds(rows, entries[j].keyword);
      ExceptionCoverageNonNegative(entries[j].exceptions, index, rows);
    }
  }

  // ---------------------------------------------------------------------
  // Samples and the whole run

  /** A sample table the engine accepts: it has a first row to name it and
      a non-zero total coverage. */
  predicate Readable(f: SampleFile) {
    f.rows != [] && Total(f.rows) != 0.0
  }

  /** The identifier of a sample table (empty for a table without rows). */
  function NameOf(f: SampleFile): string {
    if f.rows == [] then "" else SampleName(f.rows[0].sample)
  }

  /** The error a rejected table raises: the empty table fails first, when
      its name is read. */
  function Rejection(f: SampleFile): EngineError {
    if f.rows == [] then EmptySample(f.path) else ZeroCoverage(f.path)
  }

  /** One iteration of the per-file loop. */
  function SampleColumn(entries: seq<Entry>, index: map<string, string>, f: SampleFile): Result<Column, EngineError> {
    if !Readable(f) then Failure(Rejection(f))
    else Success(Column(NameOf(f), Abundances(entries, index, f.rows, Total(f.rows))))
  }

  /** The per-file loop from `acc` on: the first rejected table aborts the
      run; otherwise each column is stored under its name. */
  function Process(entries: seq<Entry>, index: map<string, string>, files: seq<SampleFile>, acc: Collected): Result<Collected, EngineError>
    decreases |files|
  {
    if files == [] then Success(acc)
    else
      match SampleColumn(entries, index, files[0])
      case Failure(e) => Failure(e)
      case Success(c) =>
        Process(entries, index, files[1..], Collected(acc.names + [c.name], acc.values[c.name := c.values]))
  }

  /** `compute_abundances`: all sample columns, then the database columns
      without the derived ones followed by the sample names in natural
      order. */
  function Compute(db: Database, files: seq<SampleFile>, leq: (string, string) -> bool): Result<ResultsTable, EngineError> {
    match Process(db.entries, SubgroupIndex(db), files, Collected([], map[]))
    case Failure(e) => Failure(e)
    case Success(acc) =>
      var rows := seq(|db.entries|, j requires 0 <= j < |db.entries| => db.entries[j].row);
      Success(ResultsTable(BaseColumns(db.columns) + SortBy(acc.names, leq), rows, acc.values))
  }

  /** The sample names, in file order. */
  function Names(files: seq<SampleFile>): (names: seq<string>)
    ensures |names| == |files|
  {
    seq(|files|, i requires 0 <= i < |files| => NameOf(files[i]))
  }

  /** Table `i` is the last one named `n`. */
  predicate LastNamed(files: seq<SampleFile>, n: string, i: int) {
    && 0 <= i < |files|
    && NameOf(files[i]) == n
    && forall k :: i < k < |files| ==> NameOf(files[k]) != n
  }

  lemma {:induction false} ProcessFailure(entries: seq<Entry>, index: map<string, string>, files: seq<SampleFile>, acc: Collected)
    ensures Process(entries, index, files, acc).Failure? <==>
              exists i :: 0 <= i < |files| && !Readable(files[i])
    ensures Process(entries, index, files, acc).Failure? ==>
              exists i :: && 0 <= i < |files| && !Readable(files[i])
                          && (forall k :: 0 <= k < i ==> Readable(files[k]))
                          && Process(entries, index, files, acc).error == Rejection(files[i])
    decreases |files|
  {
    if files != [] {
      var c := SampleColumn(entries, index, files[0]);
      if c.Success? {
        var acc' := Collected(acc.names + [c.value.name], acc.values[c.value.name := c.value.values]);
        assert Readable(files[0]);
        ProcessStep(entries, index, files, acc);
        assert Process(entries, index, files, acc) == Process(entries, index, files[1..], acc');
        ProcessFailure(entries, index, files[1..], acc');
        assert forall i :: 1 <= i < |files| ==> files[i] == files[1..][i - 1];
        if Process(entries, index, files, acc).Failure? {
          var i :| && 0 <= i < |files[1..]| && !Readable(files[1..][i])
                   && (forall k :: 0 <= k < i ==> Readable(files[1..][k]))
                   && Process(entries, index, files, acc).error == Rejection(files[1..][i]);
          assert !Readable(files[i + 1]);
        }
      } else {
        assert !Readable(files[0]);
      }
    }
  }

  /** Every name used by some table has a last table using it. */
  lemma {:induction false} LastNamedExists(files: seq<SampleFile>, n: string, k: int)
    requires 0 <= k < |files| && NameOf(files[k]) == n
    ensures exists i :: LastNamed(files, n, i)
    decreases |files| - k
  {
    if !LastNamed(files, n, k) {
      var k' :| k < k' < |files| && NameOf(files[k']) == n;
      LastNamedExists(files, n, k');
    }
  }

  /** The set of sample names. */
  function NameSet(files: seq<SampleFile>): set<string> {
    set i | 0 <= i < |files| :: NameOf(files[i])
  }

  lemma NameSetCons(files: seq<SampleFile>)
    requires files != []
    ensures NameSet(files) == {NameOf(files[0])} + NameSet(files[1..])
  {
    var tail := files[1..];
    forall n | n in NameSet(files) ensures n in {NameOf(files[0])} + NameSet(tail) {
      var i :| 0 <= i < |files| && NameOf(files[i]) == n;
      if i > 0 { assert NameOf(tail[i - 1]) == n; }
    }
    forall n | n in NameSet(tail) ensures n in NameSet(files) {
      var i :| 0 <= i < |tail| && NameOf(tail[i]) == n;
      assert NameOf(files[i + 1]) == n;
    }
    assert NameOf(files[0]) in NameSet(files);
  }

  /** The step of the per-file loop on a readable first table. */
  lemma ProcessStep(entries: seq<Entry>, index: map<string, string>, files: seq<SampleFile>, acc: Collected)
    requires files != [] && Readable(files[0])
    ensures Process(entries, index, files, acc)
         == Process(entries, index, files[1..],
                    Collected(acc.names + [NameOf(files[0])],
                              acc.values[NameOf(files[0]) := Abundances(entries, index, files[0].rows, Total(files[0].rows))]))
  {
  }

  /** A successful run read every table and named them in file order. */
  lemma {:induction false} ProcessNames(entries: seq<Entry>, index: map<string, string>, files: seq<SampleFile>, acc: Collected)
    requires Process(entries, index, files, acc).Success?
    ensures forall i :: 0 <= i < |files| ==> Readable(files[i])
    ensures Process(entries, index, files, acc).value.names == acc.names + Names(files)
    decreases |files|
  {
    if files == [] {
      assert Names(files) == [];
    } else {
      assert Readable(files[0]);
      var n := NameOf(files[0]);
      var acc' := Collected(acc.names + [n],
                            acc.values[n := Abundances(entries, index, files[0].rows, Total(files[0].rows))]);
      ProcessStep(entries, index, files, acc);
      ProcessNames(entries, index, files[1..], acc');
      assert forall i :: 1 <= i < |files| ==> files[i] == files[1..][i - 1];
      assert Names(files) == [n] + Names(files[1..]);
    }
  }

  /** A successful run adds one column per distinct name. */
  lemma {:induction false} ProcessKeys(entries: seq<Entry>, index: map<string, string>, files: seq<SampleFile>, acc: Collected)
    requires Process(entries, index, files, acc).Success?
    ensures Process(entries, index, files, acc).value.values.Keys == acc.values.Keys + NameSet(files)
    decreases |files|
  {
    if files == [] {
      assert NameSet(files) == {};
    } else {
      assert Readable(files[0]);
      var n := NameOf(files[0]);
      var acc' := Collected(acc.names + [n],
                            acc.values[n := Abundances(entries, index, files[0].rows, Total(files[0].rows))]);
      ProcessStep(entries, index, files, acc);
      ProcessKeys(entries, index, files[1..], acc');
      assert acc'.values.Keys == acc.values.Keys + {n};
      NameSetCons(files);
    }
  }

  /** A successful run leaves a name no table uses as it was. */
  lemma {:induction false} ProcessUntouched(entries: seq<Entry>, index: map<string, string>, files: seq<SampleFile>, acc: Collected, n: string)
    requires Process(entries, index, files, acc).Success?
    requires n !in NameSet(files) && n in acc.values
    ensures n in Process(entries, index, files, acc).value.values
    ensures Process(entries, index, files, acc).value.values[n] == acc.values[n]
    decreases |files|
  {
    if files != [] {
      ProcessNames(entries, index, files, acc);
      NameSetCons(files);
      var n0 := NameOf(files[0]);
      var acc' := Collected(acc.names + [n0],
                            acc.values[n0 := Abundances(entries, index, files[0].rows, Total(files[0].rows))]);
      ProcessStep(entries, index, files, acc);
      ProcessUntouched(entries, index, files[1..], acc', n);
    }
  }

  /** What a successful run stores under a name: the column of the last
      table with that name. */
  lemma {:induction false} ProcessLast(entries: seq<Entry>, index: map<string, string>, files: seq<SampleFile>, acc: Collected, n: string, i: int)
    requires Process(entries, index, files, acc).Success?
    requires LastNamed(files, n, i)
    ensures Readable(files[i]) && n in Process(entries, index, files, acc).value.values
    ensures Process(entries, index, files, acc).value.values[n]
            == Abundances(entries, index, files[i].rows, Total(files[i].rows))
    decreases |files|
  {
    ProcessNames(entries, index, files, acc);
    var n0 := NameOf(files[0]);
    var acc' := Collected(acc.names + [n0],
                          acc.values[n0 := Abundances(entries, index, files[0].rows, Total(files[0].rows))]);
    ProcessStep(entries, index, files, acc);
    var tail := files[1..];
    if i == 0 {
      assert n !in NameSet(tail) by {
        forall k | 0 <= k < |tail| ensures NameOf(tail[k]) != n {
          assert tail[k] == files[k + 1];
        }
      }
      ProcessUntouched(entries, index, tail, acc', n);
    } else {
      assert LastNamed(tail, n, i - 1) by {
        forall k | i - 1 < k < |tail| ensures NameOf(tail[k]) != n {
          assert tail[k] == files[k + 1];
        }
      }
      ProcessLast(entries, index, tail, acc', n, i - 1);
    }
  }

  /** The run fails exactly when some table is rejected, and then with the
      error of the first rejected table; no partial table is produced. */
  lemma ComputeFailure(db: Database, files: seq<SampleFile>, leq: (string, string) -> bool)
    ensures Compute(db, files, leq).Failure? <==> exists i :: 0 <= i < |files| && !Readable(files[i])
    ensures Compute(db, files, leq).Failure? ==>
              exists i :: && 0 <= i < |files| && !Readable(files[i])
                          && (forall k :: 0 <= k < i ==> Readable(files[k]))
                          && Compute(db, files, leq).error == Rejection(files[i])
  {
    ProcessFailure(db.entries, SubgroupIndex(db), files, Collected([], map[]));
  }

  /** A table whose coverage sums to zero aborts the run, even when all
      others are valid: the run names the first rejected table. */
  lemma ZeroCoverageAborts(db: Database, files: seq<SampleFile>, leq: (string, string) -> bool, i: nat)
    requires i < |files| && files[i].rows != [] && Total(files[i].rows) == 0.0
    requires forall k :: 0 <= k < |files| && k != i ==> Readable(files[k])
    ensures Compute(db, files, leq) == Failure(ZeroCoverage(files[i].path))
  {
    ComputeFailure(db, files, leq);
  }

  /** On success the header is the base columns followed by a permutation
      of the sample names, sorted when the comparison is total. */
  lemma ComputeHeader(db: Database, files: seq<SampleFile>, leq: (string, string) -> bool)
    requires Compute(db, files, leq).Success?
    ensures var t := Compute(db, files, leq).value;
            var base := BaseColumns(db.columns);
              && |t.columns| == |base| + |files|
              && t.columns[..|base|] == base
              && multiset(t.columns[|base|..]) == multiset(Names(files))
              && (IsTotal(leq) ==> IsSorted(t.columns[|base|..], leq))
  {
    var index := SubgroupIndex(db);
    ProcessNames(db.entries, index, files, Collected([], map[]));
    var acc := Process(db.entries, index, files, Collected([], map[])).value;
    assert acc.names == Names(files);
    var t := Compute(db, files, leq).value;
    var base := BaseColumns(db.columns);
    assert t.columns == base + SortBy(acc.names, leq);
    assert t.columns[..|base|] == base && t.columns[|base|..] == SortBy(acc.names, leq);
    if IsTotal(leq) {
      SortBySorted(acc.names, leq);
    }
  }

  /** On success the table keeps every database row in order, its header
      is the base columns followed by a permutation of the sample names
      (sorted when the comparison is total), and there is one column per
      distinct name. */
  lemma ComputeShape(db: Database, files: seq<SampleFile>, leq: (string, string) -> bool)
    requires Compute(db, files, leq).Success?
    ensures forall i :: 0 <= i < |files| ==> Readable(files[i])
    ensures var t := Compute(db, files, leq).value;
              && |t.rows| == |db.entries|
              && (forall j :: 0 <= j < |db.entries| ==> t.rows[j] == db.entries[j].row)
              && |t.columns| == |BaseColumns(db.columns)| + |files|
              && t.columns[..|BaseColumns(db.columns)|] == BaseColumns(db.columns)
              && multiset(t.columns[|BaseColumns(db.columns)|..]) == multiset(Names(files))
              && (IsTotal(leq) ==> IsSorted(t.columns[|BaseColumns(db.columns)|..], leq))
              && t.samples.Keys == NameSet(files)
  {
    ProcessNames(db.entries, SubgroupIndex(db), files, Collected([], map[]));
    ProcessKeys(db.entries, SubgroupIndex(db), files, Collected([], map[]));
    ComputeHeader(db, files, leq);
  }

  /** Each sample column holds, for every database row in order, the
      relative abundance of that row in the last table with that name
      (a later table with the same name overwrites an earlier one). */
  lemma ComputeColumns(db: Database, files: seq<SampleFile>, leq: (string, string) -> bool, n: string, i: int)
    requires Compute(db, files, leq).Success?
    requires LastNamed(files, n, i)
    ensures Readable(files[i])
    ensures var t := Compute(db, files, leq).value;
              && n in t.samples
              && |t.samples[n]| == |db.entries|
              && forall j :: 0 <= j < |db.entries| ==>
                   t.samples[n][j] == RelativeAbundance(
                     Matched(files[i].rows, db.entries[j].keyword),
                     ExceptionCoverage(db.entries[j].exceptions, SubgroupIndex(db), files[i].rows),
                     Total(files[i].rows))
  {
    ComputeShape(db, files, leq);
    ProcessLast(db.entries, SubgroupIndex(db), files, Collected([], map[]), n, i);
  }

  /** With non-negative coverage every value of the table lies in [0, 100]. */
  lemma ComputeBounds(db: Database, files: seq<SampleFile>, leq: (string, string) -> bool)
    requires Compute(db, files, leq).Success?
    requires forall i :: 0 <= i < |files| ==> NonNegative(files[i].rows)
    ensures var t := Compute(db, files, leq).value;
              forall n, j :: n in t.samples && 0 <= j < |t.samples[n]| ==> 0.0 <= t.samples[n][j] <= 100.0
  {
    var t := Compute(db, files, leq).value;
    ComputeShape(db, files, leq);
    forall n, j | n in t.samples && 0 <= j < |t.samples[n]|
      ensures 0.0 <= t.samples[n][j] <= 100.0
    {
      var k :| 0 <= k < |files| && NameOf(files[k]) == n;
      LastNamedExists(files, n, k);
      var i :| LastNamed(files, n, i);
      ProcessLast(db.entries, SubgroupIndex(db), files, Collected([], map[]), n, i);
      AbundancesBounds(db.entries, SubgroupIndex(db), files[i].rows);
    }
  }

  // ---------------------------------------------------------------------
  // The loops of `compute_abundances`

  function Keywords(entries: seq<Entry>): set<string> {
    set e | e in entries :: e.keyword
  }

  /** The per-sample keyword cache: every keyword of the database mapped
      to its matched coverage. The loop computes the coverage once per
      entry, repeated keywords included; a repeat stores the same value. */
  method CoverageByKeyword(entries: seq<Entry>, rows: seq<SampleRow>) returns (cache: map<string, real>)
    ensures cache.Keys == Keywords(entries)
    ensures forall k :: k in cache ==> cache[k] == Matched(rows, k)
  {
    cache := map[];
    for j := 0 to |entries|
      invariant cache.Keys == Keywords(entries[..j])
      invariant forall k :: k in cache ==> cache[k] == Matched(rows, k)
    {
      assert entries[..j + 1] == entries[..j] + [entries[j]];
      var keyword := entries[j].keyword;
      var matchedCov := Matched(rows, keyword);
      cache := cache[keyword := matchedCov];
    }
    assert entries[..|entries|] == entries;
  }

  /** The inner loop: `exception_cov +=` the cached coverage of every token
      that resolves to a non-empty keyword. */
  method ExceptionCoverageOf(tokens: seq<string>, index: map<string, string>, cache: map<string, real>, ghost rows: seq<SampleRow>)
    returns (exceptionCov: real)
    requires forall k :: k in cache ==> cache[k] == Matched(rows, k)
    requires forall s :: s in index ==> index[s] in cache
    ensures exceptionCov == ExceptionCoverage(tokens, index, rows)
  {
    exceptionCov := 0.0;
    for t := 0 to |tokens|
      invariant exceptionCov == ExceptionCoverage(tokens[..t], index, rows)
    {
      assert tokens[..t + 1][..t] == tokens[..t];
      var exc := tokens[t];
      if exc in index {
        var excKeyword := index[exc];
        if excKeyword != "" {
          exceptionCov := exceptionCov + (if excKeyword in cache then cache[excKeyword] else 0.0);
        }
      }
    }
    assert tokens[..|tokens|] == tokens;
  }

  /** The loop over the entries of one sample, appending one percentage per
      entry. The source tests for the `Exception_taxonomy_list` column
      first; the loader always adds it, so the test always passes. */
  method SampleAbundances(entries: seq<Entry>, index: map<string, string>, cache: map<string, real>, rows: seq<SampleRow>, total: real)
    returns (relAbundances: seq<real>)
    requires total != 0.0
    requires forall k :: k in cache ==> cache[k] == Matched(rows, k)
    requires forall s :: s in index ==> index[s] in cache
    requires Keywords(entries) <= cache.Keys
    ensures relAbundances == Abundances(entries, index, rows, total)
  {
    relAbundances := [];
    for j := 0 to |entries|
      invariant |relAbundances| == j
      invariant forall k :: 0 <= k < j ==> relAbundances[k] == EntryAbundance(entries[k], index, rows, total)
    {
      var keyword := entries[j].keyword;
      assert keyword in Keywords(entries);
      var matchedCov := if keyword in cache then cache[keyword] else 0.0;
      var exceptionCov := ExceptionCoverageOf(entries[j].exceptions, index, cache, rows);
      var adjustedCov := matchedCov - exceptionCov;
      var relAbundance := ((if adjustedCov > 0.0 then adjustedCov else 0.0) / total) * 100.0;
      relAbundances := relAbundances + [relAbundance];
    }
  }

  /** `compute_abundances` over tables already read: the per-file loop,
      then the header in natural order. */
  method ComputeAbundances(db: Database, files: seq<SampleFile>, leq: (string, string) -> bool)
    returns (r: Result<ResultsTable, EngineError>)
    ensures r == Compute(db, files, leq)
  {
    var index := SubgroupIndex(db);
    SubgroupIndexValues(db);
    var sampleNames: seq<string> := [];
    var values: map<string, seq<real>> := map[];
    for i := 0 to |files|
      invariant Process(db.entries, index, files, Collected([], map[]))
             == Process(db.entries, index, files[i..], Collected(sampleNames, values))
    {
      assert files[i..][1..] == files[i + 1..];
      var file := files[i];
      if file.rows == [] {
        return Failure(EmptySample(file.path));
      }
      var sampleName := SampleName(file.rows[0].sample);
      sampleNames := sampleNames + [sampleName];
      var totalCov := Total(file.rows);
      if totalCov == 0.0 {
        return Failure(ZeroCoverage(file.path));
      }
      var cache := CoverageByKeyword(db.entries, file.rows);
      assert forall s :: s in index ==> index[s] in cache by {
        forall s | s in index ensures index[s] in cache {
          var j :| 0 <= j < |db.entries| && index[s] == db.entries[j].keyword;
          assert db.entries[j] in db.entries;
        }
      }
      var relAbundances := SampleAbundances(db.entries, index, cache, file.rows, totalCov);
      values := values[sampleName := relAbundances];
    }
    var sortedSamples := SortBy(sampleNames, leq);
    var baseCols := BaseColumns(db.columns);
    var rows := seq(|db.entries|, j requires 0 <= j < |db.entries| => db.entries[j].row);
    r := Success(ResultsTable(baseCols + sortedSamples, rows, values));
  }
}
