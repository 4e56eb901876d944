/**
 * A cell of a sheet (row, column, text value) and the conversions between A1-style addresses
 * and zero-based indices (excel/CellReplica.java). Column names are bijective base 26:
 * "A" is column 0, "Z" column 25, "AA" column 26.
 */
module Cells {
  import opened Wrappers
  import opened JavaText
  import opened Pairs

  /** A cell: zero-based row and column, and its value as text. */
  datatype Cell = Cell(row: nat, column: nat, value: string)
  {
    /** `address()`: the A1-style address of the cell. */
    function Address(): (r: string)
      ensures GetAddress(row, column) == Ok(r)
    {
      ColumnLetters(column + 1) + NatToString(row + 1)
    }

    /** `toString()`: "address [value]". */
    function ToString(): string
    {
      Address() + " [" + value + "]"
    }
  }

  /** The letters of a column name ('A' to 'Z'). */
  predicate IsUpper(c: char) { 'A' <= c <= 'Z' }

  predicate AllUpper(s: string) { forall k :: 0 <= k < |s| ==> IsUpper(s[k]) }

  /** The letter standing for digit `d` (1 to 26) of a bijective base-26 numeral. */
  function Letter(d: int): (c: char)
    requires 1 <= d <= 26
    ensures IsUpper(c) && c as int - 'A' as int + 1 == d
  {
    ('A' as int + d - 1) as char
  }

  /** The number a column name denotes in bijective base 26 ("A" = 1, "Z" = 26, "AA" = 27). */
  function ColumnValue(name: string): int
  {
    if name == [] then 0
    else ColumnValue(name[..|name| - 1]) * 26 + (name[|name| - 1] as int - 'A' as int + 1)
  }

  /** The bijective base-26 numeral of `n >= 1`, most significant letter first. */
  function ColumnLetters(n: int): (r: string)
    requires n >= 1
    ensures r != [] && AllUpper(r)
    decreases n
  {
    if n <= 26 then [Letter(n)]
    else ColumnLetters((n - 1) / 26) + [Letter((n - 1) % 26 + 1)]
  }

  /** The length of the leading run of 'A'..'Z' in `s`. */
  function LeadingLetters(s: string): (n: nat)
    ensures n <= |s| && AllUpper(s[..n])
    ensures n < |s| ==> !IsUpper(s[n])
  {
    if s == [] || !IsUpper(s[0]) then 0
    else
      var n := 1 + LeadingLetters(s[1..]);
      assert s[..n] == [s[0]] + s[1..][..n - 1];
      n
  }

  /** `of(row, column, value)`: a null value is NullPointer, a negative index IllegalArgument. */
  function Of(row: int, column: int, value: Option<string>): (r: Result<Cell>)
    ensures value.None? ==> r == Err(NullPointer)
    ensures value.Some? ==> (r.Ok? <==> row >= 0 && column >= 0)
    ensures value.Some? && r.Err? ==> r.error == IllegalArgument
    ensures r.Ok? ==> r.value.row == row && r.value.column == column && r.value.value == value.value
  {
    if value.None? then Err(NullPointer)
    else if row < 0 || column < 0 then Err(IllegalArgument)
    else Ok(Cell(row, column, value.value))
  }

  /** `getColumnIdx(name)`: the zero-based index of a column name; an empty name is IllegalArgument. */
  function ColumnIdx(name: string): (r: Result<int>)
    requires AllUpper(name)
    ensures r.Err? <==> name == []
    ensures r.Err? ==> r.error == IllegalArgument
    ensures r.Ok? ==> r.value >= 0
  {
    if name == [] then Err(IllegalArgument)
    else
      ColumnValuePositive(name);
      Ok(ColumnValue(name) - 1)
  }

  /** `getColumnName(idx)`: the column name of a zero-based index; a negative index is IllegalArgument. */
  function ColumnName(idx: int): (r: Result<string>)
    ensures r.Err? <==> idx < 0
    ensures r.Err? ==> r.error == IllegalArgument
    ensures r.Ok? ==> r.value != [] && AllUpper(r.value)
  {
    if idx < 0 then Err(IllegalArgument) else Ok(ColumnLetters(idx + 1))
  }

  /** The row and column an address denotes, before any range check (shared by `of` and `getIndex`). */
  function ParseAddress(address: string): (r: Result<(int, int)>)
    ensures r.Err? ==> r.error == IllegalArgument
  {
    var i := LeadingLetters(address);
    var rowNumber := ParseInt(address[i..]);
    if rowNumber.Err? then Err(IllegalArgument)
    else
      var column := ColumnIdx(address[..i]);
      if column.Err? then Err(IllegalArgument)
      else Ok((rowNumber.value - 1, column.value))
  }

  /**
   * `of(address, value)`: the leading 'A'..'Z' run is the column name and the rest the 1-based row;
   * any failure after the null checks is IllegalArgument.
   */
  function OfAddress(address: Option<string>, value: Option<string>): (r: Result<Cell>)
    ensures address.None? || value.None? ==> r == Err(NullPointer)
    ensures address.Some? && value.Some? && r.Err? ==> r.error == IllegalArgument
  {
    if address.None? || value.None? then Err(NullPointer)
    else
      var rc := ParseAddress(address.value);
      if rc.Err? then Err(IllegalArgument)
      else
        var cell := Of(rc.value.0, rc.value.1, value);
        if cell.Err? then Err(IllegalArgument) else cell
  }

  /** `getIndex(address)`: (row, column) of an address; unlike `of`, it does not check the row. */
  function GetIndex(address: Option<string>): (r: Result<Pair<int>>)
    ensures address.None? ==> r == Err(NullPointer)
    ensures r.Ok? ==> r.value.IsPaired() && r.value.b.value >= 0
  {
    if address.None? then Err(NullPointer)
    else
      var rc := ParseAddress(address.value);
      if rc.Err? then Err(IllegalArgument)
      else Ok(Both(rc.value.0, rc.value.1))
  }

  /** `getAddress(row, column)`: the A1-style address; a negative index is IllegalArgument. */
  function GetAddress(row: int, column: int): (r: Result<string>)
    ensures r.Err? <==> row < 0 || column < 0
    ensures r.Err? ==> r.error == IllegalArgument
    ensures r.Ok? ==> r.value != [] && IsUpper(r.value[0])
  {
    if row < 0 || column < 0 then Err(IllegalArgument)
    else Ok(ColumnLetters(column + 1) + NatToString(row + 1))
  }

  // ---------------------------------------------------------------------------------------
  // The loops of the source, each proved to compute its specification function.

  /** The for loop of `getColumnIdx`. */
  method ComputeColumnIdx(name: string) returns (r: Result<int>)
    requires AllUpper(name)
    ensures r == ColumnIdx(name)
  {
    if name == [] {
      return Err(IllegalArgument);
    }
    var idx := 0;
    var i := 0;
    while i < |name|
      invariant 0 <= i <= |name|
      invariant idx == ColumnValue(name[..i])
    {
      idx := idx * 26;
      idx := idx + (name[i] as int - 'A' as int + 1);
      assert name[..i + 1][..i] == name[..i];
      i := i + 1;
    }
    assert name[..i] == name;
    r := Ok(idx - 1);
  }

  /** `StringBuilder.reverse()` on the letters appended by `getColumnName`. */
  function Reverse(s: string): (r: string)
    ensures |r| == |s|
  {
    if s == [] then [] else Reverse(s[1..]) + [s[0]]
  }

  lemma {:induction false} ReverseAppend(s: string, c: char)
    ensures Reverse(s + [c]) == [c] + Reverse(s)
  {
    if s != [] {
      assert (s + [c])[1..] == s[1..] + [c];
      ReverseAppend(s[1..], c);
    }
  }

  /** The letters `getColumnName`'s loop has still to produce while `div` is left. */
  function Pending(div: int): string
  {
    if div <= 0 then [] else ColumnLetters(div)
  }

  /** The do-while loop of `getColumnName`, which emits the least significant letter first. */
  method ComputeColumnName(idx: int) returns (r: Result<string>)
    ensures r == ColumnName(idx)
  {
    if idx < 0 {
      return Err(IllegalArgument);
    }
    var div := idx + 1;
    var str: string := [];
    while str == [] || 0 < div
      invariant 0 <= div
      invariant str == [] ==> div == idx + 1
      invariant ColumnLetters(idx + 1) == Pending(div) + Reverse(str)
      decreases div, if str == [] then 1 else 0
    {
      var d := div;
      var mod := div % 26;
      div := div / 26;
      if mod == 0 {
        mod := 26;
        div := div - 1;
      }
      assert d > 26 ==> div == (d - 1) / 26 && mod == (d - 1) % 26 + 1;
      assert d <= 26 ==> div == 0 && mod == d;
      ReverseAppend(str, Letter(mod));
      str := str + [Letter(mod)];
    }
    assert Pending(div) == [];
    assert ColumnLetters(idx + 1) == Reverse(str);
    r := Ok(Reverse(str));
  }

  /** The scan shared by `of(address)` and `getIndex`: the leading run of 'A'..'Z'. */
  method ScanColumnPart(address: string) returns (i: nat)
    ensures i == LeadingLetters(address)
  {
    i := 0;
    while i < |address|
      invariant i <= |address| && AllUpper(address[..i])
    {
      var c := address[i];
      if c < 'A' || 'Z' < c {
        break;
      }
      assert address[..i + 1] == address[..i] + [c];
      i := i + 1;
    }
    LeadingLettersIs(address, i);
  }

  lemma {:induction false} LeadingLettersIs(s: string, i: nat)
    requires i <= |s| && AllUpper(s[..i]) && (i < |s| ==> !IsUpper(s[i]))
    ensures LeadingLetters(s) == i
  {
    if i > 0 {
      assert s[0] == s[..i][0];
      assert s[1..][..i - 1] == s[..i][1..];
      LeadingLettersIs(s[1..], i - 1);
    }
  }

  /** `of(address, value)` as the source computes it, with its scan loop. */
  method ComputeOfAddress(address: Option<string>, value: Option<string>) returns (r: Result<Cell>)
    ensures r == OfAddress(address, value)
  {
    if address.None? || value.None? {
      return Err(NullPointer);
    }
    var i := ScanColumnPart(address.value);
    var rowNumber := ParseInt(address.value[i..]);
    if rowNumber.Err? {
      return Err(IllegalArgument);
    }
    var columnName := address.value[..i];
    var column := ComputeColumnIdx(columnName);
    if column.Err? {
      return Err(IllegalArgument);
    }
    r := Of(rowNumber.value - 1, column.value, value);
    if r.Err? {
      r := Err(IllegalArgument);
    }
  }

  /** `getIndex(address)` as the source computes it, with its scan loop. */
  method ComputeIndex(address: Option<string>) returns (r: Result<Pair<int>>)
    ensures r == GetIndex(address)
  {
    if address.None? {
      return Err(NullPointer);
    }
    var i := ScanColumnPart(address.value);
    var rowNumber := ParseInt(address.value[i..]);
    if rowNumber.Err? {
      return Err(IllegalArgument);
    }
    var column := ComputeColumnIdx(address.value[..i]);
    if column.Err? {
      return Err(IllegalArgument);
    }
    r := Ok(Both(rowNumber.value - 1, column.value));
  }

  // ---------------------------------------------------------------------------------------
  // Round trips.

  lemma {:induction false} ColumnValuePositive(name: string)
    requires AllUpper(name)
    ensures name != [] ==> ColumnValue(name) >= 1
    ensures ColumnValue(name) >= 0
  {
    if name != [] {
      ColumnValuePositive(name[..|name| - 1]);
    }
  }

  /** Reading a column name back gives the number it was written from. */
  lemma {:induction false} ColumnValueOfLetters(n: int)
    requires n >= 1
    ensures ColumnValue(ColumnLetters(n)) == n
    decreases n
  {
    if n > 26 {
      var s := ColumnLetters(n);
      assert s[..|s| - 1] == ColumnLetters((n - 1) / 26);
      ColumnValueOfLetters((n - 1) / 26);
    }
  }

  /** Writing the number of a column name gives the name back: the numerals are a bijection. */
  lemma {:induction false} ColumnLettersOfValue(name: string)
    requires name != [] && AllUpper(name)
    ensures ColumnValue(name) >= 1
    ensures ColumnLetters(ColumnValue(name)) == name
  {
    ColumnValuePositive(name);
    var prefix, last := name[..|name| - 1], name[|name| - 1];
    ColumnValuePositive(prefix);
    var d := last as int - 'A' as int + 1;
    assert Letter(d) == last;
    if prefix == [] {
      assert name == [last];
    } else {
      ColumnLettersOfValue(prefix);
      var n := ColumnValue(name);
      assert n == ColumnValue(prefix) * 26 + d;
      assert (n - 1) / 26 == ColumnValue(prefix) && (n - 1) % 26 + 1 == d;
      assert name == prefix + [last];
    }
  }

  /** `getColumnIdx(getColumnName(j)) == j` for every j >= 0. */
  lemma ColumnIdxOfName(j: int)
    requires j >= 0
    ensures ColumnName(j).Ok? && ColumnIdx(ColumnName(j).value) == Ok(j)
  {
    ColumnValueOfLetters(j + 1);
  }

  /** `getColumnName(getColumnIdx(s)) == s` for every non-empty name of capital letters. */
  lemma ColumnNameOfIdx(name: string)
    requires name != [] && AllUpper(name)
    ensures ColumnIdx(name).Ok? && ColumnName(ColumnIdx(name).value) == Ok(name)
  {
    ColumnLettersOfValue(name);
  }

  /** An address splits back into the column name and the row number it was made of. */
  lemma ParseOwnAddress(row: nat, column: nat)
    requires row + 1 <= INT_MAX
    ensures ParseAddress(ColumnLetters(column + 1) + NatToString(row + 1)) == Ok((row, column))
  {
    var letters, digits := ColumnLetters(column + 1), NatToString(row + 1);
    var address := letters + digits;
    assert address[|letters|] == digits[0];
    LeadingLettersIs(address, |letters|);
    assert address[..|letters|] == letters && address[|letters|..] == digits;
    ParseIntOfNatToString(row + 1);
    ColumnValueOfLetters(column + 1);
  }

  /** `getIndex(getAddress(r, c)) == Pair.of(r, c)` for every r, c >= 0 (r + 1 within int). */
  lemma GetIndexOfAddress(row: nat, column: nat)
    requires row + 1 <= INT_MAX
    ensures GetAddress(row, column).Ok?
    ensures GetIndex(Some(GetAddress(row, column).value)) == Ok(Both(row as int, column as int))
  {
    ParseOwnAddress(row, column);
  }

  /** `of(getAddress(r, c), v)` rebuilds the cell (r, c, v): the placeholder cells of the comparator. */
  lemma OfOwnAddress(row: nat, column: nat, value: string)
    requires row + 1 <= INT_MAX
    ensures OfAddress(Some(Cell(row, column, value).Address()), Some(value)) == Ok(Cell(row, column, value))
  {
    ParseOwnAddress(row, column);
  }

  /** `getIndex` accepts row number 0 and yields row -1, where `of(address, ...)` rejects it. */
  lemma RowZeroQuirk()
    ensures GetIndex(Some("A0")) == Ok(Both(-1, 0))
    ensures OfAddress(Some("A0"), Some("x")) == Err(IllegalArgument)
  {
    assert LeadingLetters("A0") == 1;
    assert "A0"[1..] == "0" && "A0"[..1] == "A";
    assert NatToString(0) == "0";
    ParseIntOfNatToString(0);
  }

  /**
   * The row number may be written in any script's decimal digits, as `Integer.parseInt` reads
   * them: "A１" (fullwidth one) is the first cell of the first row.
   */
  lemma FullwidthRowNumber()
    ensures GetIndex(Some("A１")) == Ok(Both(0, 0))
    ensures OfAddress(Some("A１"), Some("x")) == Ok(Cell(0, 0, "x"))
  {
    assert LeadingLetters("A１") == 1;
    assert "A１"[1..] == "１" && "A１"[..1] == "A";
    DigitOfRun('１', 36);
    assert ParseInt("１") == Ok(1);
  }

  /** `equals`: two cells are equal exactly when row, column and value all agree. */
  lemma CellEquality(c: Cell, d: Cell)
    ensures c == d <==> c.row == d.row && c.column == d.column && c.value == d.value
  {
  }
}
