/**
 * Picking the identifier column out of a parsed table and turning its cells
 * into the set of base names that image files are matched against.
 *
 * The table is what pandas produced under the chosen header mode: a
 * sequence of columns, each with its header and its cells already converted
 * to strings (an empty cell arrives as the string "nan").
 */
module IdentifierLoader {
  import opened Strings
  import opened Errors
  import opened ColumnLetters

  /** A column label: a string read from the header row, or some other value
      (a number, a date) together with what `str()` makes of it. */
  datatype Header = StringHeader(name: string) | OtherHeader(shown: string)

  datatype Column = Column(header: Header, cells: seq<string>)

  type Table = seq<Column>

  /** `str(header)`. */
  function Shown(h: Header): string {
    match h
    case StringHeader(name) => name
    case OtherHeader(shown) => shown
  }

  /** The first position whose element satisfies `p`, as `list.index` finds it. */
  function FirstWhere<T>(s: seq<T>, p: T -> bool): (r: Option<nat>)
    ensures r.Some? ==> r.value < |s| && p(s[r.value]) && forall k :: 0 <= k < r.value ==> !p(s[k])
    ensures r.None? ==> forall k :: 0 <= k < |s| ==> !p(s[k])
  {
    if s == [] then None
    else if p(s[0]) then Some(0)
    else match FirstWhere(s[1..], p)
      case None => None
      case Some(i) => Some(i + 1)
  }

  /**
   * Header mode: the column whose header is the string `name` wins;
   * otherwise the first column whose header's `str()` is `name`; otherwise
   * ColumnNotFound.
   */
  function ResolveByHeader(table: Table, name: string): (r: Result<nat>)
    ensures r.Ok? <==> exists i :: 0 <= i < |table| && Shown(table[i].header) == name
    ensures r.Ok? ==> r.value < |table| && Shown(table[r.value].header) == name
    ensures r.Err? ==> r.error == ColumnNotFound(name)
    ensures (exists i :: 0 <= i < |table| && table[i].header == StringHeader(name)) ==>
              r.Ok? && table[r.value].header == StringHeader(name) &&
              forall k :: 0 <= k < r.value ==> table[k].header != StringHeader(name)
    ensures (forall i :: 0 <= i < |table| ==> table[i].header != StringHeader(name)) && r.Ok? ==>
              forall k :: 0 <= k < r.value ==> Shown(table[k].header) != name
  {
    match FirstWhere(table, (c: Column) => c.header == StringHeader(name))
    case Some(i) => Ok(i)
    case None =>
      match FirstWhere(table, (c: Column) => Shown(c.header) == name)
      case Some(i) => Ok(i)
      case None => Err(ColumnNotFound(name))
  }

  /** Positional access `df.iloc[:, index]` on a table of `width` columns:
      a negative index counts from the end, anything else out of range is an
      IndexError. */
  function ResolvePosition(width: nat, index: int): (r: Result<nat>)
    ensures r.Ok? <==> -(width as int) <= index < width
    ensures r.Ok? ==> r.value < width && (if index >= 0 then r.value == index else r.value == width + index)
    ensures r.Err? ==> r.error == ColumnOutOfRange(index)
  {
    if 0 <= index < width then Ok(index)
    else if -(width as int) <= index < 0 then Ok(width + index)
    else Err(ColumnOutOfRange(index))
  }

  /** Which column holds the identifiers: by letters when there is no
      header row, by header otherwise. */
  function ResolveColumn(table: Table, selector: string, noHeader: bool): (r: Result<nat>)
    ensures r.Ok? ==> r.value < |table|
  {
    if noHeader then
      match ExcelColToIndex(selector)
      case Err(e) => Err(e)
      case Ok(index) => ResolvePosition(|table|, index)
    else
      ResolveByHeader(table, selector)
  }

  /** The base names a column yields: every cell is trimmed, blank cells are
      dropped, and one extension is split off what remains. */
  function BaseNames(cells: seq<string>): (r: set<string>)
    ensures "" !in r
    ensures r == {} <==> forall c :: c in cells ==> AllSpace(c)
  {
    StripBlankEach(cells);
    var names := set c | c in cells && Strip(c) != [] :: Stem(Strip(c));
    if exists c :: c in cells && !AllSpace(c) then
      var c :| c in cells && !AllSpace(c);
      assert Stem(Strip(c)) in names;
      names
    else
      names
  }

  lemma {:induction false} StripBlankEach(cells: seq<string>)
    ensures forall c :: c in cells ==> (Strip(c) == [] <==> AllSpace(c))
  {
    forall c | c in cells ensures Strip(c) == [] <==> AllSpace(c) {
      StripBlank(c);
    }
  }

  /**
   * The identifier set the worker builds, or the error it raises: an
   * unresolvable column, or EmptyNameList when no cell of the column yields
   * a base name.
   */
  function LoadBaseNames(table: Table, selector: string, noHeader: bool): (r: Result<set<string>>)
    ensures r.Ok? ==> r.value != {} && "" !in r.value
    ensures r.Ok? ==> ResolveColumn(table, selector, noHeader).Ok? &&
                      r.value == BaseNames(table[ResolveColumn(table, selector, noHeader).value].cells)
    ensures ResolveColumn(table, selector, noHeader).Err? ==> r == Err(ResolveColumn(table, selector, noHeader).error)
    ensures r == Err(EmptyNameList) <==>
              ResolveColumn(table, selector, noHeader).Ok? &&
              forall c :: c in table[ResolveColumn(table, selector, noHeader).value].cells ==> AllSpace(c)
    ensures r.Ok? <==>
              ResolveColumn(table, selector, noHeader).Ok? &&
              exists c :: c in table[ResolveColumn(table, selector, noHeader).value].cells && !AllSpace(c)
  {
    match ResolveColumn(table, selector, noHeader)
    case Err(e) => Err(e)
    case Ok(i) =>
      var names := BaseNames(table[i].cells);
      if names == {} then Err(EmptyNameList) else Ok(names)
  }

  /**
   * What the identifier set holds: the empty string never, each member is
   * a trimmed non-blank cell with at most one extension split off and no
   * leading blank, and every non-blank cell contributes its base name.
   */
  lemma {:induction false} BaseNamesMembers(cells: seq<string>)
    ensures "" !in BaseNames(cells)
    ensures forall b :: b in BaseNames(cells) ==>
              !IsSpace(b[0]) && exists c, ext :: c in cells && Strip(c) == b + ext && SplitExt(Strip(c)) == (b, ext)
    ensures forall c :: c in cells && !AllSpace(c) ==> Stem(Strip(c)) in BaseNames(cells)
  {
    forall b | b in BaseNames(cells)
      ensures b != [] && !IsSpace(b[0]) && exists c, ext :: c in cells && Strip(c) == b + ext && SplitExt(Strip(c)) == (b, ext)
    {
      var c :| c in cells && Strip(c) != [] && Stem(Strip(c)) == b;
      var ext := SplitExt(Strip(c)).1;
      assert Strip(c) == b + ext;
      assert b[0] == Strip(c)[0];
    }
    forall c | c in cells && !AllSpace(c) ensures Stem(Strip(c)) in BaseNames(cells) {
      StripBlank(c);
    }
  }

  /** A blank cell, wherever it stands, adds nothing. */
  lemma {:induction false} BlankCellsIgnored(cells: seq<string>, blank: string)
    requires AllSpace(blank)
    ensures BaseNames(cells + [blank]) == BaseNames(cells)
    ensures BaseNames([blank] + cells) == BaseNames(cells)
  {
    StripBlank(blank);
  }

  /** A string header beats an earlier non-string header that prints the
      same: with headers [5, "5"], the selector "5" picks the second column. */
  lemma {:induction false} ExactHeaderWins(a: seq<string>, b: seq<string>)
    ensures ResolveByHeader([Column(OtherHeader("5"), a), Column(StringHeader("5"), b)], "5") == Ok(1)
  {
    var table := [Column(OtherHeader("5"), a), Column(StringHeader("5"), b)];
    assert table[1].header == StringHeader("5");
  }

  /** Without a header row, a blank selector decodes to -1, which positional
      access reads as the last column. */
  lemma {:induction false} BlankSelectorPicksLastColumn(table: Table, selector: string)
    requires AllSpace(selector) && |table| > 0
    ensures ResolveColumn(table, selector, true) == Ok(|table| - 1)
  {
    assert Upper(selector) == selector by { UpperBlank(selector); }
    StripBlank(selector);
    assert Normalize(selector) == [];
  }
}
