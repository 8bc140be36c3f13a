/** The database loader (`load_database`): every functional-group row gets
    a matching keyword derived from its `GTDB_taxonomy` label and a list of
    excluded subgroups parsed from its `Exception_taxonomy` text. */
module Database {
  import opened Wrappers
  import opened Text

  const TaxonomyColumn := "GTDB_taxonomy"
  const SubgroupColumn := "Subgroup"
  const ExceptionColumn := "Exception_taxonomy"
  const ExceptionListColumn := "Exception_taxonomy_list"
  const KeywordColumn := "keyword"

  /** The rank separator of GTDB labels such as `g__Methanosarcina`. */
  const RankSeparator := "__"

  /** One database row as read. The three columns the loader interprets are
      fields (`None` is an empty cell, which pandas reads as NaN, or a column
      the table does not have); every other column is kept by name. */
  datatype DbRow = DbRow(
    taxonomy: Option<string>,
    subgroup: Option<string>,
    exceptionText: Option<string>,
    metadata: map<string, string>)

  /** The database table as read: its header and its rows, in file order. */
  datatype RawDatabase = RawDatabase(columns: seq<string>, rows: seq<DbRow>)

  /** A loaded row: the row itself and its two derived fields. */
  datatype Entry = Entry(row: DbRow, exceptions: seq<string>, keyword: string)

  /** The loaded table; `columns` includes the derived columns. */
  datatype Database = Database(columns: seq<string>, entries: seq<Entry>)

  datatype LoadError =
    | MissingColumn(name: string)   // KeyError on `db["GTDB_taxonomy"]`
    | NonTextTaxonomy(row: nat)     // TypeError: `"__" in tax` on a NaN label

  /** The matching keyword of a taxonomy label: the last piece of the
      label split on `__` when it has one, otherwise the whole label. The
      keyword closes the label, holds no `__`, and follows a `__` when there
      is one.
      It can be empty (`"d__"`). */
  function Keyword(tax: string): (k: string)
    ensures EndsWith(tax, k) && !Contains(k, RankSeparator)
    ensures Contains(tax, RankSeparator) ==> EndsWith(tax, RankSeparator + k)
    ensures !Contains(tax, RankSeparator) ==> k == tax
  {
    if Contains(tax, RankSeparator) then
      var parts := Split(tax, RankSeparator);
      assert |parts| >= 2 && parts[|parts| - 1] in parts by {
        SplitWith(tax, RankSeparator);
      }
      assert tax == Join(parts[..|parts| - 1], RankSeparator) + RankSeparator + parts[|parts| - 1] by {
        SplitJoin(tax, RankSeparator);
        JoinLast(parts, RankSeparator);
      }
      assert !Contains(parts[|parts| - 1], RankSeparator) by {
        SplitPiecesFree(tax, RankSeparator);
      }
      parts[|parts| - 1]
    else
      tax
  }

  /** A ranked label `p__k` yields `k`, provided `k` has no `__` and `p` does
      not end with `_` (otherwise the leftmost-first split eats into `k`). */
  lemma KeywordOfRankedLabel(p: string, k: string)
    requires !Contains(k, RankSeparator)
    requires p == [] || p[|p| - 1] != '_'
    ensures Keyword(p + RankSeparator + k) == k
  {
    var tax := p + RankSeparator + k;
    assert NoStraddle(p, RankSeparator) by {
      forall i | 0 <= i < |p| && |p| - 2 < i
        ensures !OccursAt(p + RankSeparator, RankSeparator, i)
      {
        assert (p + RankSeparator)[i] == p[|p| - 1];
      }
    }
    assert OccursAt(tax, RankSeparator, |p|) by {
      assert tax[|p|..|p| + 2] == RankSeparator;
    }
    SplitAround(p, RankSeparator, k);
    SplitWithout(k, RankSeparator);
    var parts := Split(tax, RankSeparator);
    assert parts == Split(p, RankSeparator) + [k];
    assert parts[|parts| - 1] == k;
  }


  /** A trailing separator gives an empty keyword, so a non-empty label
      does not guarantee a non-empty keyword. */
  lemma KeywordOfTrailingSeparator()
    ensures Keyword("d__") == ""
  {
    assert OccursAt("d__", RankSeparator, 1);
    assert Split("", RankSeparator) == [""];
    assert "__"[2..] == "" && "__"[..2] == RankSeparator;
    assert Split("__", RankSeparator) == ["", ""];
    assert "d__"[1..] == "__" && "d__"[..2][0] != RankSeparator[0];
    assert ['d'] + "" == "d";
    assert Split("d__", RankSeparator) == [['d'] + ""] + [""];
  }

  /** Python splits left to right, so three underscores leave one on the
      keyword. */
  lemma KeywordOfTripleUnderscore()
    ensures Keyword("a___b") == "_b"
  {
    assert OccursAt("a___b", RankSeparator, 1);
    assert Split("b", RankSeparator) == ["b"];
    assert "_b"[1..] == "b" && |"_b"| == 2 && "_b"[..2][1] != RankSeparator[1];
    assert ['_'] + "b" == "_b";
    assert Split("_b", RankSeparator) == [['_'] + "b"];
    assert "___b"[2..] == "_b" && "___b"[..2] == RankSeparator;
    assert Split("___b", RankSeparator) == ["", "_b"];
    assert "a___b"[1..] == "___b" && "a___b"[..2][0] != RankSeparator[0];
    assert ['a'] + "" == "a";
    assert Split("a___b", RankSeparator) == [['a'] + ""] + ["_b"];
  }

  /** The non-blank texts of `ss`, in order. */
  function NonBlank(ss: seq<string>): seq<string> {
    if ss == [] then []
    else (if ss[0] == [] then [] else [ss[0]]) + NonBlank(ss[1..])
  }

  /** Dropping blanks keeps exactly the non-blank texts. */
  lemma {:induction false} NonBlankMembers(ss: seq<string>)
    ensures forall t :: t in NonBlank(ss) <==> t in ss && t != []
  {
    if ss != [] {
      NonBlankMembers(ss[1..]);
      assert ss == [ss[0]] + ss[1..];
    }
  }

  /** Dropping blanks commutes with concatenation. */
  lemma {:induction false} NonBlankAppend(a: seq<string>, b: seq<string>)
    ensures NonBlank(a + b) == NonBlank(a) + NonBlank(b)
  {
    if a == [] {
      assert a + b == b;
    } else {
      assert (a + b)[0] == a[0] && (a + b)[1..] == a[1..] + b;
      NonBlankAppend(a[1..], b);
    }
  }

  /** `f` applied to every text of `ss`, in order. */
  function MapText(f: string -> string, ss: seq<string>): (r: seq<string>)
    ensures |r| == |ss| && forall j :: 0 <= j < |ss| ==> r[j] == f(ss[j])
  {
    seq(|ss|, j requires 0 <= j < |ss| => f(ss[j]))
  }

  lemma MapTextAppend(f: string -> string, a: seq<string>, b: seq<string>)
    ensures MapText(f, a + b) == MapText(f, a) + MapText(f, b)
  {
    forall j | 0 <= j < |a| + |b|
      ensures MapText(f, a + b)[j] == (MapText(f, a) + MapText(f, b))[j]
    {
      if j < |a| {
        assert (a + b)[j] == a[j];
      } else {
        assert (a + b)[j] == b[j - |a|];
      }
    }
  }

  /** The exception tokens of a list of comma-separated pieces: each piece
      stripped of surrounding whitespace, blanks dropped, order kept. */
  function Tokens(pieces: seq<string>): seq<string> {
    NonBlank(MapText(Strip, pieces))
  }

  /** The tokens are exactly the non-blank stripped pieces. */
  lemma TokensMembers(pieces: seq<string>)
    ensures forall t :: t in Tokens(pieces) <==>
              t != [] && exists j :: 0 <= j < |pieces| && t == Strip(pieces[j])
  {
    var ss := MapText(Strip, pieces);
    NonBlankMembers(ss);
    forall t | t in ss
      ensures exists j :: 0 <= j < |pieces| && t == Strip(pieces[j])
    {
      var j :| 0 <= j < |ss| && ss[j] == t;
    }
    forall j | 0 <= j < |pieces| ensures Strip(pieces[j]) in ss {
      assert ss[j] == Strip(pieces[j]);
    }
  }

  /** Tokens of consecutive runs of pieces come out consecutively. */
  lemma TokensAppend(a: seq<string>, b: seq<string>)
    ensures Tokens(a + b) == Tokens(a) + Tokens(b)
  {
    MapTextAppend(Strip, a, b);
    NonBlankAppend(MapText(Strip, a), MapText(Strip, b));
  }

  /** A stripped piece of `text` that holds no comma is a comma-free
      substring of `text`. */
  lemma StrippedPieceFacts(text: string, piece: string)
    requires Contains(text, piece) && !Contains(piece, ",")
    ensures ',' !in Strip(piece) && Contains(text, Strip(piece))
  {
    var t := Strip(piece);
    var i := StripOccurs(piece);
    assert OccursAt(piece, t, i);
    ContainsTransitive(text, piece, t);
    ContainsChar(piece, ',');
    forall k | 0 <= k < |t| ensures t[k] != ',' {
      assert t[k] == piece[i + k];
    }
  }

  /** The exception list of one `Exception_taxonomy` text: the text split on
      commas, every piece stripped, blank pieces dropped. Every token is
      non-empty, has no surrounding whitespace and no comma, and occurs in
      the text. */
  function ExceptionTokens(text: string): (tokens: seq<string>)
    ensures forall t :: t in tokens ==>
              t != [] && !IsSpace(t[0]) && !IsSpace(t[|t| - 1])
              && ',' !in t && Contains(text, t)
  {
    var pieces := Split(text, ",");
    TokensMembers(pieces);
    SplitPiecesFree(text, ",");
    SplitPiecesOccur(text, ",");
    assert forall j :: 0 <= j < |pieces| ==>
             ',' !in Strip(pieces[j]) && Contains(text, Strip(pieces[j])) by {
      forall j | 0 <= j < |pieces|
        ensures ',' !in Strip(pieces[j]) && Contains(text, Strip(pieces[j]))
      {
        assert pieces[j] in pieces;
        StrippedPieceFacts(text, pieces[j]);
      }
    }
    Tokens(pieces)
  }

  /** Joining two texts with a comma concatenates their exception lists:
      tokens keep the comma order of the text. */
  lemma ExceptionTokensJoin(x: string, y: string)
    ensures ExceptionTokens(x + "," + y) == ExceptionTokens(x) + ExceptionTokens(y)
  {
    SplitAround(x, ",", y);
    TokensAppend(Split(x, ","), Split(y, ","));
  }

  /** A text without commas is one token, or none when it is blank. */
  lemma ExceptionTokensSingle(x: string)
    requires ',' !in x
    ensures ExceptionTokens(x) == if Strip(x) == [] then [] else [Strip(x)]
  {
    ContainsChar(x, ',');
    assert [','] == ",";
    SplitWithout(x, ",");
    assert MapText(Strip, [x]) == [Strip(x)] && [Strip(x)][1..] == [];
    assert NonBlank([Strip(x)]) == (if Strip(x) == [] then [] else [Strip(x)]) + NonBlank([]);
  }

  /** The exception list of one cell: a missing value is the empty text. */
  function ExceptionList(cell: Option<string>): (tokens: seq<string>)
    ensures cell.None? ==> tokens == []
  {
    assert ExceptionTokens("") == [] by {
      ExceptionTokensSingle("");
    }
    ExceptionTokens(cell.GetOr(""))
  }

  /** The header after loading: a missing `Exception_taxonomy` column is
      added, then `Exception_taxonomy_list` and `keyword`; pandas appends a
      column it does not have and overwrites one in place that it does. */
  function LoadedColumns(columns: seq<string>): (loaded: seq<string>)
    ensures forall c :: c in columns ==> c in loaded
    ensures ExceptionColumn in loaded && ExceptionListColumn in loaded && KeywordColumn in loaded
  {
    var withExceptions := if ExceptionColumn in columns then columns else columns + [ExceptionColumn];
    var withList := if ExceptionListColumn in withExceptions then withExceptions else withExceptions + [ExceptionListColumn];
    if KeywordColumn in withList then withList else withList + [KeywordColumn]
  }

  /** The leading columns of the results: every column but the two derived
      ones, in order. */
  function BaseColumns(columns: seq<string>): (base: seq<string>)
    ensures forall c :: c in base <==> c in columns && c != KeywordColumn && c != ExceptionListColumn
    ensures |base| <= |columns|
  {
    if columns == [] then []
    else
      (if columns[0] == KeywordColumn || columns[0] == ExceptionListColumn then [] else [columns[0]])
      + BaseColumns(columns[1..])
  }

  lemma {:induction false} BaseColumnsAppend(a: seq<string>, b: seq<string>)
    ensures BaseColumns(a + b) == BaseColumns(a) + BaseColumns(b)
  {
    if a == [] {
      assert a + b == b;
    } else {
      assert (a + b)[0] == a[0] && (a + b)[1..] == a[1..] + b;
      BaseColumnsAppend(a[1..], b);
    }
  }

  /** Appending one column keeps it unless it is a derived one. */
  lemma BaseColumnsSnoc(a: seq<string>, c: string)
    ensures BaseColumns(a + [c])
         == BaseColumns(a) + (if c == KeywordColumn || c == ExceptionListColumn then [] else [c])
  {
    BaseColumnsAppend(a, [c]);
    assert [c][1..] == [];
  }

  /** The output keeps the database's own columns, minus any it had under
      the two derived names, and gains an `Exception_taxonomy` column at the
      end when the database lacked one. */
  lemma BaseOfLoadedColumns(columns: seq<string>)
    ensures BaseColumns(LoadedColumns(columns))
         == BaseColumns(columns) + (if ExceptionColumn in columns then [] else [ExceptionColumn])
  {
    var withExceptions := if ExceptionColumn in columns then columns else columns + [ExceptionColumn];
    var withList := if ExceptionListColumn in withExceptions then withExceptions else withExceptions + [ExceptionListColumn];
    assert ExceptionColumn != KeywordColumn && ExceptionColumn != ExceptionListColumn;
    assert BaseColumns(withExceptions)
        == BaseColumns(columns) + (if ExceptionColumn in columns then [] else [ExceptionColumn]) by {
      if ExceptionColumn !in columns {
        BaseColumnsSnoc(columns, ExceptionColumn);
      }
    }
    assert BaseColumns(withList) == BaseColumns(withExceptions) by {
      if ExceptionListColumn !in withExceptions {
        BaseColumnsSnoc(withExceptions, ExceptionListColumn);
      }
    }
    if KeywordColumn !in withList {
      BaseColumnsSnoc(withList, KeywordColumn);
    }
  }

  /** The row as the loaded table holds it: a missing `Exception_taxonomy`
      column is filled with empty text. */
  function LoadedRow(columns: seq<string>, row: DbRow): DbRow {
    if ExceptionColumn in columns then row else row.(exceptionText := Some(""))
  }

  /** Without an `Exception_taxonomy` column, and for a missing value in
      it, a row has no exceptions. */
  lemma NoExceptionsWithoutText(columns: seq<string>, row: DbRow)
    requires ExceptionColumn !in columns || row.exceptionText.None?
    ensures ExceptionList(LoadedRow(columns, row).exceptionText) == []
  {
    if ExceptionColumn !in columns {
      ExceptionTokensSingle("");
    }
  }

  /** `load_database` on a table already read: fails when the taxonomy
      column is missing or a label is not text, and otherwise keeps every
      row, in order, with its keyword and its exception list. */
  method LoadDatabase(raw: RawDatabase) returns (r: Result<Database, LoadError>)
    ensures r.Failure? <==>
              TaxonomyColumn !in raw.columns
              || exists i :: 0 <= i < |raw.rows| && raw.rows[i].taxonomy.None?
    ensures TaxonomyColumn !in raw.columns ==> r == Failure(MissingColumn(TaxonomyColumn))
    ensures TaxonomyColumn in raw.columns && r.Failure? ==> r.error.NonTextTaxonomy?
    ensures r.Failure? && r.error.NonTextTaxonomy? ==>
              r.error.row < |raw.rows| && raw.rows[r.error.row].taxonomy.None?
              && forall i :: 0 <= i < r.error.row ==> raw.rows[i].taxonomy.Some?
    ensures r.Success? ==>
              && r.value.columns == LoadedColumns(raw.columns)
              && |r.value.entries| == |raw.rows|
              && forall i :: 0 <= i < |raw.rows| ==>
                   && r.value.entries[i].row == LoadedRow(raw.columns, raw.rows[i])
                   && r.value.entries[i].exceptions == ExceptionList(r.value.entries[i].row.exceptionText)
                   && r.value.entries[i].keyword == Keyword(raw.rows[i].taxonomy.value)
  {
    var rows := seq(|raw.rows|, i requires 0 <= i < |raw.rows| => LoadedRow(raw.columns, raw.rows[i]));
    var lists := seq(|rows|, i requires 0 <= i < |rows| => ExceptionList(rows[i].exceptionText));
    if TaxonomyColumn !in raw.columns {
      return Failure(MissingColumn(TaxonomyColumn));
    }
    var keywords: seq<string> := [];
    for i := 0 to |rows|
      invariant |keywords| == i
      invariant forall j :: 0 <= j < i ==>
                  raw.rows[j].taxonomy.Some? && keywords[j] == Keyword(raw.rows[j].taxonomy.value)
    {
      match rows[i].taxonomy
      case None =>
        return Failure(NonTextTaxonomy(i));
      case Some(tax) =>
        keywords := keywords + [Keyword(tax)];
    }
    var entries := seq(|rows|, i requires 0 <= i < |rows| => Entry(rows[i], lists[i], keywords[i]));
    r := Success(Database(LoadedColumns(raw.columns), entries));
  }
}
