/** The virtual-key reference table (`getVirtualKeycodes` in
    scripts/process-windows-layouts.mjs): the rows of the first table of the
    reference page become a dictionary from a symbolic name such as `VK_A` to
    the entry `{name, number, description}`. */
module VkCodes {
  import opened Wrappers
  import opened JsText
  import opened Tables

  datatype VkEntry = VkEntry(name: string, number: JsNum, description: string)

  /** One `tr` of the reference table: the text of its `td` cells, in order. */
  type Row = seq<string>

  /** `$(cells[i]).text().trim()`; a missing cell reads as the empty string. */
  function Cell(row: Row, i: nat): string {
    if i < |row| then Trim(row[i]) else ""
  }

  // ------------------------------------------------- /0x[0-9A-F]{2}/, unanchored

  predicate IsUpperHexDigit(c: char) { '0' <= c <= '9' || 'A' <= c <= 'F' }

  /** The pattern `0x[0-9A-F]{2}` occurs in `s` at index `i`. */
  predicate HexByteAt(s: string, i: nat) {
    i + 4 <= |s| && s[i] == '0' && s[i + 1] == 'x'
    && IsUpperHexDigit(s[i + 2]) && IsUpperHexDigit(s[i + 3])
  }

  /** The regular-expression test, as a statement about `s`. */
  predicate HasHexByte(s: string) {
    exists i :: 0 <= i <= |s| && HexByteAt(s, i)
  }

  /** The leftmost occurrence of the pattern at or after `from`. */
  function FindHexByte(s: string, from: nat): (r: Option<nat>)
    requires from <= |s|
    decreases |s| - from
    ensures r.Some? ==> from <= r.value <= |s| && HexByteAt(s, r.value)
    ensures r.Some? ==> forall j :: from <= j < r.value ==> !HexByteAt(s, j)
    ensures r.None? ==> forall j :: from <= j <= |s| ==> !HexByteAt(s, j)
  {
    if from + 4 > |s| then None
    else if HexByteAt(s, from) then Some(from)
    else FindHexByte(s, from + 1)
  }

  // ------------------------------------------------- /(?<char>[A-Z0-9])/

  predicate IsCodeChar(c: char) { 'A' <= c <= 'Z' || '0' <= c <= '9' }

  /** The index of the first `[A-Z0-9]` character at or after `from`. */
  function FindCodeChar(s: string, from: nat): (r: Option<nat>)
    requires from <= |s|
    decreases |s| - from
    ensures r.Some? ==> from <= r.value < |s| && IsCodeChar(s[r.value])
    ensures r.Some? ==> forall j :: from <= j < r.value ==> !IsCodeChar(s[j])
    ensures r.None? ==> forall j :: from <= j < |s| ==> !IsCodeChar(s[j])
  {
    if from == |s| then None
    else if IsCodeChar(s[from]) then Some(from)
    else FindCodeChar(s, from + 1)
  }

  // ------------------------------------------------- one row

  /** What one row contributes: nothing when its hex cell lacks the pattern
      or when its name is empty and the description has no `[A-Z0-9]`
      character; otherwise the entry, named after the first cell or after
      `VK_` and that character. The number is `parseInt(hex, 16)`. */
  function RowEntry(row: Row): Option<VkEntry>
  {
    EntryOf(Cell(row, 0), Cell(row, 1), Cell(row, 2))
  }

  /** The same decision, from the three trimmed cell texts. */
  function EntryOf(name: string, hex: string, description: string): Option<VkEntry>
  {
    if FindHexByte(hex, 0).None? then None
    else if name != "" then Some(VkEntry(name, ParseIntHex(hex), description))
    else
      match FindCodeChar(description, 0)
      case None => None
      case Some(i) => Some(VkEntry("VK_" + [description[i]], ParseIntHex(hex), description))
  }

  /** The `vkCodes.set(name, entry)` call a row makes, if any. */
  function RowWrite(row: Row): Option<(string, VkEntry)>
  {
    match RowEntry(row)
    case None => None
    case Some(e) => Some((e.name, e))
  }

  /** The reference table built from `rows`. */
  function VkTable(rows: seq<Row>): map<string, VkEntry>
  {
    LastWins(Emitted(rows, RowWrite))
  }

  /** `getVirtualKeycodes`: one pass over the rows, setting each admitted
      row's entry under its name. */
  method GetVirtualKeycodes(rows: seq<Row>) returns (vkCodes: map<string, VkEntry>)
    ensures vkCodes == VkTable(rows)
    ensures forall name :: name in vkCodes ==> vkCodes[name].name == name
  {
    vkCodes := map[];
    var i := 0;
    while i < |rows|
      invariant 0 <= i <= |rows|
      invariant vkCodes == VkTable(rows[..i])
    {
      var row := rows[i];
      var vkCode := Cell(row, 0);
      var hex := Cell(row, 1);
      var description := Cell(row, 2);
      EmittedStep(rows[..i + 1], RowWrite);
      assert rows[..i + 1][..i] == rows[..i];
      assert rows[..i + 1][i] == row;
      if FindHexByte(hex, 0).None? {
        assert RowWrite(row).None?;
        i := i + 1;
        continue;
      }
      if vkCode == "" {
        var c := FindCodeChar(description, 0);
        if c.None? {
          assert RowWrite(row).None?;
          i := i + 1;
          continue;
        }
        vkCode := "VK_" + [description[c.value]];
      }
      assert RowWrite(row) == Some((vkCode, VkEntry(vkCode, ParseIntHex(hex), description)));
      vkCodes := vkCodes[vkCode := VkEntry(vkCode, ParseIntHex(hex), description)];
      i := i + 1;
    }
    assert rows[..i] == rows;
    VkTableKeysAreNames(rows);
  }

  // ------------------------------------------------- properties

  predicate HasCodeChar(s: string) {
    exists j :: 0 <= j < |s| && IsCodeChar(s[j])
  }

  /** `s[j]` is the first `[A-Z0-9]` character of `s`. */
  predicate IsFirstCodeChar(s: string, j: nat) {
    j < |s| && IsCodeChar(s[j]) && forall k :: 0 <= k < j ==> !IsCodeChar(s[k])
  }

  /** Row admission: a row is admitted exactly when its hex cell contains
      `0x` and two upper-case hexadecimal digits and it has a name or a
      description with an `[A-Z0-9]` character to make one from. */
  lemma RowAdmission(row: Row)
    ensures RowEntry(row).Some? <==>
              HasHexByte(Cell(row, 1)) && (Cell(row, 0) != "" || HasCodeChar(Cell(row, 2)))
  {
    var hex := Cell(row, 1);
    if HasHexByte(hex) {
      var i :| 0 <= i <= |hex| && HexByteAt(hex, i);
      assert FindHexByte(hex, 0).Some?;
    }
    var d := Cell(row, 2);
    if HasCodeChar(d) {
      var j :| 0 <= j < |d| && IsCodeChar(d[j]);
      assert FindCodeChar(d, 0).Some?;
    }
  }

  /** An admitted row's entry: its number is the hex cell parsed base 16,
      its description the third cell, and its name the first cell or, when
      that is empty, `VK_` followed by the first `[A-Z0-9]` character of the
      description. */
  lemma RowEntryFields(row: Row, j: nat)
    requires RowEntry(row).Some?
    ensures RowEntry(row).value.number == ParseIntHex(Cell(row, 1))
    ensures RowEntry(row).value.description == Cell(row, 2)
    ensures Cell(row, 0) != "" ==> RowEntry(row).value.name == Cell(row, 0)
    ensures Cell(row, 0) == "" && IsFirstCodeChar(Cell(row, 2), j) ==>
              RowEntry(row).value.name == "VK_" + [Cell(row, 2)[j]]
  {
    var d := Cell(row, 2);
    if Cell(row, 0) == "" && IsFirstCodeChar(d, j) {
      var f := FindCodeChar(d, 0);
      assert f.Some?;
      assert f.value == j;
    }
  }

  /** A name is in the table exactly when some admitted row carries it. */
  lemma VkTableKeys(rows: seq<Row>, name: string)
    ensures name in VkTable(rows) <==>
              exists i :: 0 <= i < |rows| && RowEntry(rows[i]).Some? && RowEntry(rows[i]).value.name == name
  {
    EmittedKeys(rows, RowWrite, name);
  }

  /** The entry under a name is the one of the last row carrying that name:
      a later row with the same name overwrites an earlier one. */
  lemma VkTableLastRow(rows: seq<Row>, i: nat)
    requires i < |rows| && RowEntry(rows[i]).Some?
    requires forall j :: i < j < |rows| && RowEntry(rows[j]).Some? ==>
               RowEntry(rows[j]).value.name != RowEntry(rows[i]).value.name
    ensures RowEntry(rows[i]).value.name in VkTable(rows)
    ensures VkTable(rows)[RowEntry(rows[i]).value.name] == RowEntry(rows[i]).value
  {
    EmittedLast(rows, RowWrite, i);
  }

  /** Every entry's `name` field equals the key it is stored under. */
  lemma {:induction false} VkTableKeysAreNames(rows: seq<Row>)
    ensures forall name :: name in VkTable(rows) ==> VkTable(rows)[name].name == name
  {
    if rows != [] {
      var init := rows[..|rows| - 1];
      var last := rows[|rows| - 1];
      EmittedStep(rows, RowWrite);
      VkTableKeysAreNames(init);
      forall name | name in VkTable(rows) ensures VkTable(rows)[name].name == name {
        match RowEntry(last)
        case None =>
          assert RowWrite(last).None?;
          assert VkTable(rows) == VkTable(init);
        case Some(e) =>
          assert RowWrite(last) == Some((e.name, e));
          assert VkTable(rows) == VkTable(init)[e.name := e];
      }
    }
  }

  /** A reference row with an empty name cell, `0x41` and the description
      `A` becomes the entry `VK_A` with number 65. */
  lemma SynthesizedNameExample(row: Row)
    requires row == ["", "0x41", "A"]
    ensures RowEntry(row) == Some(VkEntry("VK_A", Num(65), "A"))
  {
    assert Tight(row[0]) && Tight(row[1]) && Tight(row[2]);
    RowOfTightCells(row);
    SynthesizedEntry();
  }

  lemma SynthesizedEntry()
    ensures EntryOf("", "0x41", "A") == Some(VkEntry("VK_A", Num(65), "A"))
  {
    assert HexByteAt("0x41", 0);
    assert FindHexByte("0x41", 0) == Some(0);
    assert FindCodeChar("A", 0) == Some(0);
    HexByteValue('4', '1');
    assert ['0', 'x', '4', '1'] == "0x41";
    assert ParseIntHex("0x41") == Num(65);
    assert "VK_" + ['A'] == "VK_A";
  }

  /** A cell without white space at its ends reads as itself. */
  lemma CellOfTight(row: Row, i: nat)
    requires i < |row| && Tight(row[i])
    ensures Cell(row, i) == row[i]
  {
    TrimPadded([], row[i], []);
    assert [] + row[i] + [] == row[i];
  }

  /** A three-cell row whose cells have no white space at their ends is
      decided on those texts as they are. */
  lemma RowOfTightCells(row: Row)
    requires |row| == 3 && Tight(row[0]) && Tight(row[1]) && Tight(row[2])
    ensures RowEntry(row) == EntryOf(row[0], row[1], row[2])
  {
    CellOfTight(row, 0);
    CellOfTight(row, 1);
    CellOfTight(row, 2);
  }

  /** The pattern is not anchored: a hex cell that merely contains it is
      admitted, and `parseInt` then reads whatever the cell starts with —
      here nothing, so the number is NaN. */
  lemma UnanchoredHexCell(row: Row)
    requires row == ["VK_X", "zz 0x41", "x"]
    ensures RowEntry(row) == Some(VkEntry("VK_X", NaN, "x"))
  {
    assert Tight(row[0]) && Tight(row[1]) && Tight(row[2]);
    RowOfTightCells(row);
    UnanchoredEntry();
  }

  lemma UnanchoredEntry()
    ensures EntryOf("VK_X", "zz 0x41", "x") == Some(VkEntry("VK_X", NaN, "x"))
  {
    assert HexByteAt("zz 0x41", 3);
    assert FindHexByte("zz 0x41", 0).Some?;
    assert LeadingSpace("zz 0x41") == 0;
    assert HexRun("zz 0x41") == 0;
  }
}
