/** The in-memory table the cleaning and quality-check functions work on: a row
    index and a sequence of named columns of equal length, each numeric (float64),
    text (object) or categorical (the compass labels pd.cut produces). A missing
    cell (NaN, None) is `None`. */
module Frame {
  import opened Wrappers
  import opened Seqs

  /** The eight wind-direction labels, in category order. */
  datatype Compass = N | NE | E | SE | S | SW | W | NW

  /** A cell value of any kind; a row is a sequence of these. */
  datatype Value = Num(x: real) | Txt(s: string) | Label(c: Compass)

  /** The cells of one column, by kind. */
  datatype Cells =
    | Numbers(xs: seq<Option<real>>)
    | Texts(ss: seq<Option<string>>)
    | Labels(ls: seq<Option<Compass>>)

  datatype Column = Column(name: string, cells: Cells)

  datatype Table = Table(index: seq<int>, columns: seq<Column>)

  /** The dtypes the model distinguishes; integer columns are modelled as float64. */
  datatype DType = Float64 | Object | Category

  /** `KeyError` for absent column names, `TypeError` for an operation on a column of the wrong kind. */
  datatype Error = KeyError(missing: seq<string>) | TypeError(column: string)

  function Length(c: Cells): nat
  {
    match c
    case Numbers(xs) => |xs|
    case Texts(ss) => |ss|
    case Labels(ls) => |ls|
  }

  function CellAt(c: Cells, i: nat): Option<Value>
    requires i < Length(c)
  {
    match c
    case Numbers(xs) => if xs[i].Some? then Some(Num(xs[i].value)) else None
    case Texts(ss) => if ss[i].Some? then Some(Txt(ss[i].value)) else None
    case Labels(ls) => if ls[i].Some? then Some(Label(ls[i].value)) else None
  }

  function DTypeOf(c: Cells): DType
  {
    match c
    case Numbers(_) => Float64
    case Texts(_) => Object
    case Labels(_) => Category
  }

  /** Every column has one cell per index entry, and column names are distinct. */
  predicate WellFormed(t: Table)
  {
    && (forall c :: 0 <= c < |t.columns| ==> Length(t.columns[c].cells) == |t.index|)
    && (forall c, d :: 0 <= c < d < |t.columns| ==> t.columns[c].name != t.columns[d].name)
  }

  /** The position of the column called `name`. */
  function Find(cols: seq<Column>, name: string): (r: Option<nat>)
    ensures r.Some? ==> r.value < |cols| && cols[r.value].name == name
    ensures r.Some? ==> forall d :: 0 <= d < r.value ==> cols[d].name != name
    ensures r.None? <==> forall c :: 0 <= c < |cols| ==> cols[c].name != name
  {
    if |cols| == 0 then None
    else if cols[0].name == name then Some(0)
    else
      match Find(cols[1..], name)
      case None => None
      case Some(k) => Some(k + 1)
  }

  /** In a well-formed table a column is found exactly at its own position. */
  lemma FindOwnName(t: Table, c: nat)
    requires WellFormed(t) && c < |t.columns|
    ensures Find(t.columns, t.columns[c].name) == Some(c)
  {
  }

  /** `df[name]` for an operation that needs a numeric column. */
  function NumericColumn(t: Table, name: string): (r: Result<seq<Option<real>>, Error>)
    ensures r.Ok? <==> Find(t.columns, name).Some? && t.columns[Find(t.columns, name).value].cells.Numbers?
    ensures r.Ok? ==> r.value == t.columns[Find(t.columns, name).value].cells.xs
    ensures r.Err? && Find(t.columns, name).None? ==> r.error == KeyError([name])
    ensures r.Err? && Find(t.columns, name).Some? ==> r.error == TypeError(name)
  {
    match Find(t.columns, name)
    case None => Err(KeyError([name]))
    case Some(k) => if t.columns[k].cells.Numbers? then Ok(t.columns[k].cells.xs) else Err(TypeError(name))
  }

  /** The position of the first name that is not a column, or |names| when all are. */
  function FirstAbsent(t: Table, names: seq<string>): (k: nat)
    ensures k <= |names|
    ensures forall j :: 0 <= j < k ==> Find(t.columns, names[j]).Some?
    ensures k < |names| ==> Find(t.columns, names[k]).None?
  {
    if |names| == 0 then 0
    else if Find(t.columns, names[0]).None? then 0
    else 1 + FirstAbsent(t, names[1..])
  }

  /** The position of the first name that is not a numeric column, or |names| when all are. */
  function FirstNonNumeric(t: Table, names: seq<string>): (k: nat)
    ensures k <= |names|
    ensures forall j :: 0 <= j < k ==> NumericColumn(t, names[j]).Ok?
    ensures k < |names| ==> NumericColumn(t, names[k]).Err?
  {
    if |names| == 0 then 0
    else if NumericColumn(t, names[0]).Err? then 0
    else 1 + FirstNonNumeric(t, names[1..])
  }

  /** A loop that stops at the first non-numeric name may step past a numeric one. */
  lemma NextNumeric(t: Table, names: seq<string>, k: nat)
    requires k < |names| && k <= FirstNonNumeric(t, names) && NumericColumn(t, names[k]).Ok?
    ensures k + 1 <= FirstNonNumeric(t, names)
  {
  }

  /** Row i: the cells at position i of every column, in column order. */
  function Row(t: Table, i: nat): (r: seq<Option<Value>>)
    requires WellFormed(t) && i < |t.index|
    ensures |r| == |t.columns|
  {
    seq(|t.columns|, c requires 0 <= c < |t.columns| => CellAt(t.columns[c].cells, i))
  }

  function AllRows(t: Table): (r: seq<seq<Option<Value>>>)
    requires WellFormed(t)
    ensures |r| == |t.index|
    ensures forall i :: 0 <= i < |r| ==> r[i] == Row(t, i)
  {
    seq(|t.index|, i requires 0 <= i < |t.index| => Row(t, i))
  }

  /** `df[col.name] = col`: replaces the column of that name in place, or appends it. */
  function SetColumn(cols: seq<Column>, col: Column): (r: seq<Column>)
    ensures Find(cols, col.name).Some? ==> r == cols[Find(cols, col.name).value := col]
    ensures Find(cols, col.name).None? ==> r == cols + [col]
  {
    match Find(cols, col.name)
    case Some(k) => cols[k := col]
    case None => cols + [col]
  }

  /** Setting a column of the right length keeps a table well-formed. */
  lemma SetColumnWellFormed(t: Table, col: Column)
    requires WellFormed(t) && Length(col.cells) == |t.index|
    ensures WellFormed(Table(t.index, SetColumn(t.columns, col)))
  {
  }

  /** The cells of a column at the kept positions. */
  function FilterCells(c: Cells, keep: seq<bool>): (r: Cells)
    requires Length(c) == |keep|
    ensures Length(r) == |Kept(keep)|
    ensures DTypeOf(r) == DTypeOf(c)
    ensures forall j :: 0 <= j < |Kept(keep)| ==> CellAt(r, j) == CellAt(c, Kept(keep)[j])
  {
    match c
    case Numbers(xs) => FilterAt(xs, keep); Numbers(Filter(xs, keep))
    case Texts(ss) => FilterAt(ss, keep); Texts(Filter(ss, keep))
    case Labels(ls) => FilterAt(ls, keep); Labels(Filter(ls, keep))
  }

  /** Boolean row selection `df[keep]`: the kept rows, index labels included, in order. */
  function FilterRows(t: Table, keep: seq<bool>): (r: Table)
    requires WellFormed(t) && |keep| == |t.index|
    ensures WellFormed(r)
    ensures r.index == Filter(t.index, keep)
    ensures |r.columns| == |t.columns|
    ensures forall c :: 0 <= c < |t.columns| ==>
      r.columns[c] == Column(t.columns[c].name, FilterCells(t.columns[c].cells, keep))
    ensures forall j :: 0 <= j < |r.index| ==> Row(r, j) == Row(t, Kept(keep)[j])
  {
    FilteredRows(t, keep);
    Table(Filter(t.index, keep), FilteredColumns(t, keep))
  }

  function FilteredColumns(t: Table, keep: seq<bool>): (cols: seq<Column>)
    requires WellFormed(t) && |keep| == |t.index|
    ensures |cols| == |t.columns|
    ensures forall c :: 0 <= c < |t.columns| ==>
      cols[c] == Column(t.columns[c].name, FilterCells(t.columns[c].cells, keep))
  {
    seq(|t.columns|, c requires 0 <= c < |t.columns| =>
      Column(t.columns[c].name, FilterCells(t.columns[c].cells, keep)))
  }

  lemma FilteredRows(t: Table, keep: seq<bool>)
    requires WellFormed(t) && |keep| == |t.index|
    ensures var r := Table(Filter(t.index, keep), FilteredColumns(t, keep));
      && WellFormed(r)
      && forall j :: 0 <= j < |r.index| ==> Row(r, j) == Row(t, Kept(keep)[j])
  {
    var r := Table(Filter(t.index, keep), FilteredColumns(t, keep));
    forall j | 0 <= j < |r.index|
      ensures Row(r, j) == Row(t, Kept(keep)[j])
    {
      assert forall c :: 0 <= c < |t.columns| ==> Row(r, j)[c] == Row(t, Kept(keep)[j])[c];
    }
  }

  /** The rows of u are the rows p[0] < p[1] < … of t, index labels included. */
  ghost predicate RowsFrom(t: Table, u: Table, p: seq<nat>)
    requires WellFormed(t) && WellFormed(u) && |u.columns| == |t.columns|
  {
    && |p| == |u.index|
    && (forall j :: 0 <= j < |p| ==> p[j] < |t.index|)
    && (forall j :: 0 <= j < |p| ==> u.index[j] == t.index[p[j]])
    && (forall j, c :: 0 <= j < |p| && 0 <= c < |t.columns| ==>
          CellAt(u.columns[c].cells, j) == CellAt(t.columns[c].cells, p[j]))
    && (forall j, k :: 0 <= j < k < |p| ==> p[j] < p[k])
  }

  /** Boolean row selection keeps the rows at the kept positions, in order. */
  lemma FilterRowsFrom(t: Table, keep: seq<bool>)
    requires WellFormed(t) && |keep| == |t.index|
    ensures RowsFrom(t, FilterRows(t, keep), Kept(keep))
  {
    FilterAt(t.index, keep);
  }

  /** A selection of rows from a selection of rows is a selection of rows. */
  lemma RowsFromCompose(t: Table, u: Table, v: Table, p: seq<nat>, q: seq<nat>)
    requires WellFormed(t) && WellFormed(u) && WellFormed(v)
    requires |u.columns| == |t.columns| && |v.columns| == |u.columns|
    requires RowsFrom(t, u, p) && RowsFrom(u, v, q)
    ensures RowsFrom(t, v, Compose(p, q))
  {
  }

  /** A pandas DataFrame object, for the functions that change their argument in place. */
  class DataFrame {
    var index: seq<int>
    var columns: seq<Column>

    /** The table the object currently holds. */
    function Snapshot(): Table
      reads this
    {
      Table(index, columns)
    }

    constructor (t: Table)
      ensures Snapshot() == t
    {
      index := t.index;
      columns := t.columns;
    }
  }
}
