/** The script scripts/process-windows-layouts.mjs as a whole: its module
    state (`keyCodes`, `usVkCodes`, `driverSummaries`, `driverVkCodes`) is a
    `LayoutProcessor` object, its three functions are methods on it, and
    its top-level statements are `Run`. The store `Run` returns is what the
    script serialises to the overrides file. */
module ProcessLayouts {
  import opened Wrappers
  import opened JsText
  import opened Tables
  import opened VkCodes
  import opened KeyMappings
  import opened LayoutMetadata

  /** The two documents found for one driver name, either possibly missing. */
  datatype LayoutFiles = LayoutFiles(info: Option<seq<MetaTable>>, keys: Option<seq<Key>>)

  /** The ways a run throws: `defined` on a missing value, or a failure of
      one of the two document readers. */
  datatype RunError = Undefined | KeyMappingFailed(MappingError) | MetadataFailed(MetadataError)

  const BaselineDriver := "kbdus"
  const BaselineLang := "en-US"

  /** The driver names are distinct, as the keys of a `Map` are. */
  predicate DistinctNames(files: seq<(string, LayoutFiles)>) {
    forall i, j :: 0 <= i < j < |files| ==> files[i].0 != files[j].0
  }

  /** `layoutFiles.get(name)`. */
  function Lookup(files: seq<(string, LayoutFiles)>, name: string): (r: Option<LayoutFiles>)
    ensures r.Some? ==> exists i :: 0 <= i < |files| && files[i] == (name, r.value)
    ensures r.None? ==> forall i :: 0 <= i < |files| ==> files[i].0 != name
  {
    if files == [] then None
    else if files[|files| - 1].0 == name then Some(files[|files| - 1].1)
    else
      var r := Lookup(files[..|files| - 1], name);
      assert forall i :: 0 <= i < |files| - 1 ==> files[..|files| - 1][i] == files[i];
      r
  }

  // ------------------------------------------------- the run, as values

  /** The baseline: `kbdus`'s mappings read against an empty baseline with
      the `en-US` locale. */
  function BaselineMappings(keyCodes: map<string, VkEntry>, files: seq<(string, LayoutFiles)>, upper: CaseMapping): Result<Mappings, RunError>
  {
    match Lookup(files, BaselineDriver)
    case None => Err(Undefined)
    case Some(f) =>
      match f.keys
      case None => Err(Undefined)
      case Some(keys) =>
        match VirtualKeyMappings(keyCodes, map[], keys, Some(BaselineLang), upper)
        case Err(e) => Err(KeyMappingFailed(e))
        case Ok(m) => Ok(m)
  }

  /** `metadata[0]?.lang`. */
  function FirstLang(records: seq<Metadata>): Option<string> {
    if records == [] then None else Some(records[0].lang)
  }

  /** What one driver's two documents give: the KLID pairs read from its
      info document and its mappings against `baseline`. */
  datatype DriverData = DriverData(found: seq<Klid>, codes: Mappings)

  function DriverResult(keyCodes: map<string, VkEntry>, baseline: map<JsNum, string>, f: LayoutFiles, upper: CaseMapping): Result<DriverData, RunError>
  {
    match f.info
    case None => Err(Undefined)
    case Some(tables) =>
      match ScanTables(tables)
      case Err(e) => Err(MetadataFailed(e))
      case Ok(sc) =>
        match f.keys
        case None => Err(Undefined)
        case Some(keys) =>
          match VirtualKeyMappings(keyCodes, baseline, keys, FirstLang(sc.records), upper)
          case Err(e) => Err(KeyMappingFailed(e))
          case Ok(m) => Ok(DriverData(sc.found, m))
  }

  /** `driverSummaries` and `driverVkCodes`. */
  datatype RunState = RunState(summaries: map<string, Summary>, vkCodes: map<string, Mappings>)

  /** The driver loop over `files`, from state `st`: each driver in turn,
      the first failure ending the run. */
  function Drivers(keyCodes: map<string, VkEntry>, baseline: map<JsNum, string>, st: RunState,
                   files: seq<(string, LayoutFiles)>, upper: CaseMapping): Result<RunState, RunError>
    decreases |files|
  {
    if files == [] then Ok(st)
    else
      match Advance(keyCodes, baseline, st, files[0].0, files[0].1, upper)
      case Err(e) => Err(e)
      case Ok(s) => Drivers(keyCodes, baseline, s, files[1..], upper)
  }

  /** One iteration of the driver loop, for driver `name`. */
  function Advance(keyCodes: map<string, VkEntry>, baseline: map<JsNum, string>, s: RunState, name: string,
                   f: LayoutFiles, upper: CaseMapping): Result<RunState, RunError>
  {
    match DriverResult(keyCodes, baseline, f, upper)
    case Err(e) => Err(e)
    case Ok(d) => Ok(RunState(AbsorbAll(s.summaries, name, d.found), s.vkCodes[name := d.codes]))
  }

  /** The last loop: every summary gets its driver's mappings, or empty
      ones when there are none. */
  function Attach(summaries: map<string, Summary>, vkCodes: map<string, Mappings>): map<string, Summary>
  {
    map n | n in summaries :: summaries[n].(codes := if n in vkCodes then vkCodes[n] else EmptyMappings)
  }

  /** The whole run: the store written to the overrides file. */
  function ProcessSpec(keyCodes: map<string, VkEntry>, files: seq<(string, LayoutFiles)>, upper: CaseMapping): Result<map<string, Summary>, RunError>
  {
    match BaselineMappings(keyCodes, files, upper)
    case Err(e) => Err(e)
    case Ok(base) =>
      match Drivers(keyCodes, base.vk, RunState(map[], map[BaselineDriver := base]), files, upper)
      case Err(e) => Err(e)
      case Ok(st) => Ok(Attach(st.summaries, st.vkCodes))
  }

  // ------------------------------------------------- the run, as the script does it

  class LayoutProcessor {
    /** The reference table, built once and only read afterwards. */
    const keyCodes: map<string, VkEntry>
    var usVkCodes: Mappings
    var driverSummaries: map<string, Summary>
    var driverVkCodes: map<string, Mappings>

    constructor(keyCodes: map<string, VkEntry>)
      ensures this.keyCodes == keyCodes
      ensures usVkCodes == EmptyMappings && driverSummaries == map[] && driverVkCodes == map[]
    {
      this.keyCodes := keyCodes;
      usVkCodes := EmptyMappings;
      driverSummaries := map[];
      driverVkCodes := map[];
    }

    /** `getVirtualKeyMappings`: one pass over the key elements, against the
        current baseline `usVkCodes`. */
    method GetVirtualKeyMappings(keys: seq<Key>, lang: Option<string>, upper: CaseMapping)
      returns (r: Result<Mappings, MappingError>)
      ensures r == VirtualKeyMappings(keyCodes, usVkCodes.vk, keys, lang, upper)
    {
      var mappings := EmptyMappings;
      var i := 0;
      while i < |keys|
        invariant 0 <= i <= |keys|
        invariant FirstKeyError(keyCodes, lang, upper, keys[..i]).None?
        invariant mappings == Mappings(GlyphTable(keyCodes, usVkCodes.vk, lang, upper, keys[..i]), ScanTable(keyCodes, keys[..i]))
      {
        KeyStep(keyCodes, usVkCodes.vk, lang, upper, keys, i);
        var next := MapKey(keys[i], lang, upper, mappings);
        if next.Err? {
          FirstKeyErrorExtend(keyCodes, lang, upper, keys, i + 1);
          return next;
        }
        mappings := next.value;
        i := i + 1;
      }
      assert keys[..i] == keys;
      return Ok(mappings);
    }

    /** The body of the loop of `getVirtualKeyMappings`, for one key: the
        error the key raises, or the two tables after its writes. */
    method MapKey(key: Key, lang: Option<string>, upper: CaseMapping, mappings: Mappings) returns (r: Result<Mappings, MappingError>)
      ensures KeyError(keyCodes, lang, upper, key).Some? ==> r == Err(KeyError(keyCodes, lang, upper, key).value)
      ensures KeyError(keyCodes, lang, upper, key).None? ==>
                r == Ok(Mappings(Put(mappings.vk, GlyphWrite(keyCodes, usVkCodes.vk, lang, upper, key)),
                                 Put(mappings.sc, ScanWrite(keyCodes, key))))
    {
      var vk := key.vk;
      var scanCode := key.sc;
      if !Present(vk) {
        return Err(MissingVk);
      }
      if !Present(scanCode) {
        return Err(MissingScanCode);
      }
      if vk.value !in keyCodes {
        return Ok(mappings);
      }
      var vkNum := keyCodes[vk.value].number;
      var result := mappings.(sc := mappings.sc[scanCode.value := vkNum]);
      var values := Unconditional(key.results);
      if |values| != 1 {
        return Ok(result);
      }
      var value := values[0].text;
      if !Present(value) {
        return Ok(result);
      }
      var upperValue := upper(value.value, lang);
      if upperValue.None? {
        return Err(BadLocale(lang));
      }
      if !(vkNum in usVkCodes.vk && usVkCodes.vk[vkNum] == upperValue.value) {
        result := result.(vk := result.vk[vkNum := upperValue.value]);
      }
      return Ok(result);
    }

    /** `getLayoutMetadata`: the records of the tables headed `KLID`, each
        KLID pair read being added to the summary of driver `name`. */
    method GetLayoutMetadata(name: string, tables: seq<MetaTable>) returns (r: Result<seq<Metadata>, MetadataError>)
      modifies this`driverSummaries
      ensures r == LayoutRecords(tables)
      ensures r.Ok? ==> driverSummaries == AbsorbAll(old(driverSummaries), name, ScanTables(tables).value.found)
    {
      var allMetadata: seq<Metadata> := [];
      ghost var found: seq<Klid> := [];
      var ti := 0;
      while ti < |tables|
        invariant 0 <= ti <= |tables|
        invariant ScanTables(tables[..ti]) == Ok(Scan(allMetadata, found))
        invariant driverSummaries == AbsorbAll(old(driverSummaries), name, found)
      {
        var rows := tables[ti];
        assert tables[..ti + 1][..ti] == tables[..ti] && tables[..ti + 1][ti] == rows;
        if FirstHeader(rows) != KlidHeader {
          ti := ti + 1;
          continue;
        }
        ghost var before := driverSummaries;
        var metadata := ReadTable(name, rows);
        if metadata.Err? {
          assert ScanTables(tables[..ti + 1]).Err?;
          ScanTablesErrExtend(tables, ti + 1);
          return Err(metadata.error);
        }
        ghost var tableFound := ScanRows(rows).value.found;
        AbsorbAllAppend(old(driverSummaries), name, found, tableFound);
        assert ScanTables(tables[..ti + 1]) == Ok(Scan(allMetadata + [metadata.value], found + tableFound));
        allMetadata := allMetadata + [metadata.value];
        found := found + tableFound;
        ti := ti + 1;
      }
      assert tables[..ti] == tables;
      return Ok(allMetadata);
    }

    /** The inner loop of `getLayoutMetadata`, over the rows of one table
        headed `KLID`: the record those rows fill in, each KLID pair read
        being added to the summary of driver `name`. */
    method ReadTable(name: string, rows: MetaTable) returns (r: Result<Metadata, MetadataError>)
      modifies this`driverSummaries
      ensures ScanRows(rows).Err? ==> r == Err(ScanRows(rows).error)
      ensures ScanRows(rows).Ok? ==>
                r == Ok(ScanRows(rows).value.record) &&
                driverSummaries == AbsorbAll(old(driverSummaries), name, ScanRows(rows).value.found)
    {
      var metadata := BlankRecord;
      ghost var tableFound: seq<Klid> := [];
      var ri := 0;
      while ri < |rows|
        invariant 0 <= ri <= |rows|
        invariant ScanRows(rows[..ri]) == Ok(TableScan(metadata, tableFound))
        invariant driverSummaries == AbsorbAll(old(driverSummaries), name, tableFound)
      {
        var row := rows[ri];
        assert ScanRows(rows[..ri + 1]) == RowStep(TableScan(metadata, tableFound), row) by {
          assert rows[..ri + 1][..ri] == rows[..ri] && rows[..ri + 1][ri] == row;
        }
        var key := Trim(row.header);
        var value := Trim(row.data);
        if key == KlidHeader {
          var m := ParseKlid(value);
          if m.None? {
            ScanRowsErrExtend(rows, ri + 1);
            return Err(BadKlid(value));
          }
          var id, lang := m.value.id, m.value.lang;
          metadata := metadata.(id := id, lang := lang);
          var summary := if name in driverSummaries then driverSummaries[name] else Summary({}, {}, EmptyMappings);
          driverSummaries := driverSummaries[name := summary.(klids := summary.klids + {id}, langs := summary.langs + {lang})];
          AbsorbAllSnoc(old(driverSummaries), name, tableFound, m.value);
          tableFound := tableFound + [m.value];
        } else if key == DisplayNameHeader {
          metadata := metadata.(layout := value);
        }
        ri := ri + 1;
      }
      assert rows[..ri] == rows;
      return Ok(metadata);
    }

    /** The script's top-level statements: the baseline first, then every
        driver (the baseline included), then the mappings attached to the
        summaries. */
    method Run(layoutFiles: seq<(string, LayoutFiles)>, upper: CaseMapping) returns (r: Result<map<string, Summary>, RunError>)
      requires usVkCodes == EmptyMappings && driverSummaries == map[] && driverVkCodes == map[]
      modifies this
      ensures r == ProcessSpec(keyCodes, layoutFiles, upper)
    {
      var usLayout := Lookup(layoutFiles, BaselineDriver);
      if usLayout.None? || usLayout.value.keys.None? {
        assert BaselineMappings(keyCodes, layoutFiles, upper) == Err(Undefined);
        return Err(Undefined);
      }
      var usMappings := GetVirtualKeyMappings(usLayout.value.keys.value, Some(BaselineLang), upper);
      if usMappings.Err? {
        assert BaselineMappings(keyCodes, layoutFiles, upper) == Err(KeyMappingFailed(usMappings.error));
        return Err(KeyMappingFailed(usMappings.error));
      }
      driverVkCodes := driverVkCodes[BaselineDriver := usMappings.value];
      usVkCodes := driverVkCodes[BaselineDriver];
      assert BaselineMappings(keyCodes, layoutFiles, upper) == Ok(usVkCodes);
      assert driverSummaries == map[] && driverVkCodes == map[BaselineDriver := usVkCodes];
      var failure := ReadDrivers(layoutFiles, upper);
      if failure.Some? {
        return Err(failure.value);
      }
      AttachCodes();
      return Ok(driverSummaries);
    }

    /** The driver loop of the script: every driver in turn, against the
        baseline `usVkCodes`; `Some` with the error of the first driver that
        throws. */
    method ReadDrivers(layoutFiles: seq<(string, LayoutFiles)>, upper: CaseMapping) returns (failure: Option<RunError>)
      modifies this`driverSummaries, this`driverVkCodes
      ensures failure.Some? ==>
                Drivers(keyCodes, usVkCodes.vk, RunState(old(driverSummaries), old(driverVkCodes)), layoutFiles, upper) == Err(failure.value)
      ensures failure.None? ==>
                Drivers(keyCodes, usVkCodes.vk, RunState(old(driverSummaries), old(driverVkCodes)), layoutFiles, upper) ==
                Ok(RunState(driverSummaries, driverVkCodes))
    {
      ghost var result := Drivers(keyCodes, usVkCodes.vk, RunState(driverSummaries, driverVkCodes), layoutFiles, upper);
      failure := None;
      var i := 0;
      while i < |layoutFiles|
        invariant 0 <= i <= |layoutFiles|
        invariant result == Drivers(keyCodes, usVkCodes.vk, RunState(driverSummaries, driverVkCodes), layoutFiles[i..], upper)
        invariant failure.None?
      {
        var (name, files) := layoutFiles[i];
        assert layoutFiles[i..][0] == (name, files) && layoutFiles[i..][1..] == layoutFiles[i + 1..];
        failure := ProcessDriver(name, files, upper);
        if failure.Some? {
          return;
        }
        i := i + 1;
      }
    }

    /** The body of the driver loop for driver `name`: its metadata read
        into its summary, then its mappings read with the language of its
        first record and stored; `Some` with the error when it throws. */
    method ProcessDriver(name: string, files: LayoutFiles, upper: CaseMapping) returns (failure: Option<RunError>)
      modifies this`driverSummaries, this`driverVkCodes
      ensures Advance(keyCodes, usVkCodes.vk, RunState(old(driverSummaries), old(driverVkCodes)), name, files, upper) ==
                if failure.Some? then Err(failure.value) else Ok(RunState(driverSummaries, driverVkCodes))
    {
      if files.info.None? {
        return Some(Undefined);
      }
      var metadata := GetLayoutMetadata(name, files.info.value);
      if metadata.Err? {
        return Some(MetadataFailed(metadata.error));
      }
      var lang := if |metadata.value| > 0 then Some(metadata.value[0].lang) else None;
      assert lang == FirstLang(ScanTables(files.info.value).value.records);
      if files.keys.None? {
        return Some(Undefined);
      }
      var keyMappings := GetVirtualKeyMappings(files.keys.value, lang, upper);
      if keyMappings.Err? {
        return Some(KeyMappingFailed(keyMappings.error));
      }
      driverVkCodes := driverVkCodes[name := keyMappings.value];
      return None;
    }

    /** The last loop of the script: every summary gets its driver's
        mappings, or empty ones when the driver has none. */
    method AttachCodes()
      modifies this`driverSummaries
      ensures driverSummaries == Attach(old(driverSummaries), driverVkCodes)
    {
      var remaining := driverSummaries.Keys;
      while remaining != {}
        invariant remaining <= old(driverSummaries).Keys
        invariant driverSummaries.Keys == old(driverSummaries).Keys
        invariant forall n :: n in driverSummaries ==>
                    driverSummaries[n] == if n in remaining then old(driverSummaries)[n] else Attach(old(driverSummaries), driverVkCodes)[n]
        decreases remaining
      {
        var name :| name in remaining;
        var summary := driverSummaries[name];
        var codes := if name in driverVkCodes then driverVkCodes[name] else EmptyMappings;
        driverSummaries := driverSummaries[name := summary.(codes := codes)];
        remaining := remaining - {name};
      }
    }
  }

  /** The script from the reference table's rows to the store it writes. */
  method ProcessWindowsLayouts(vkRows: seq<Row>, layoutFiles: seq<(string, LayoutFiles)>, upper: CaseMapping)
    returns (r: Result<map<string, Summary>, RunError>)
    ensures r == ProcessSpec(VkTable(vkRows), layoutFiles, upper)
  {
    var keyCodes := GetVirtualKeycodes(vkRows);
    var processor := new LayoutProcessor(keyCodes);
    r := processor.Run(layoutFiles, upper);
  }

  // ------------------------------------------------- what the run produces

  /** The baseline is `kbdus`'s complete tables under `en-US`: read against
      the empty baseline, every glyph candidate is kept. */
  lemma BaselineIsFullTable(keyCodes: map<string, VkEntry>, files: seq<(string, LayoutFiles)>, upper: CaseMapping)
    requires BaselineMappings(keyCodes, files, upper).Ok?
    ensures Lookup(files, BaselineDriver).Some? && Lookup(files, BaselineDriver).value.keys.Some?
    ensures var keys := Lookup(files, BaselineDriver).value.keys.value;
            BaselineMappings(keyCodes, files, upper).value ==
              Mappings(FullGlyphTable(keyCodes, Some(BaselineLang), upper, keys), ScanTable(keyCodes, keys))
  {
    var keys := Lookup(files, BaselineDriver).value.keys.value;
    EmptyBaselineRecordsAll(keyCodes, Some(BaselineLang), upper, keys);
  }

  /** The driver loop succeeds exactly when every driver's two documents
      are present and read without error. */
  lemma {:induction false} DriversOkIff(keyCodes: map<string, VkEntry>, baseline: map<JsNum, string>, st: RunState,
                                        files: seq<(string, LayoutFiles)>, upper: CaseMapping)
    ensures Drivers(keyCodes, baseline, st, files, upper).Ok? <==>
              forall i :: 0 <= i < |files| ==> DriverResult(keyCodes, baseline, files[i].1, upper).Ok?
    decreases |files|
  {
    if files != [] {
      var rest := files[1..];
      assert forall i :: 0 <= i < |rest| ==> rest[i] == files[i + 1];
      match Advance(keyCodes, baseline, st, files[0].0, files[0].1, upper)
      case Err(_) =>
      case Ok(s) =>
        DriversOkIff(keyCodes, baseline, s, rest, upper);
        if forall i :: 0 <= i < |rest| ==> DriverResult(keyCodes, baseline, rest[i].1, upper).Ok? {
          forall i | 0 <= i < |files| ensures DriverResult(keyCodes, baseline, files[i].1, upper).Ok? {
            if i > 0 {
              assert files[i] == rest[i - 1];
            }
          }
        }
    }
  }

  /** When the loop fails, it fails with the error of the first driver
      whose documents are missing or unreadable. */
  lemma {:induction false} DriversFailAt(keyCodes: map<string, VkEntry>, baseline: map<JsNum, string>, st: RunState,
                                         files: seq<(string, LayoutFiles)>, upper: CaseMapping, i: nat)
    requires i < |files| && DriverResult(keyCodes, baseline, files[i].1, upper).Err?
    requires forall j :: 0 <= j < i ==> DriverResult(keyCodes, baseline, files[j].1, upper).Ok?
    ensures Drivers(keyCodes, baseline, st, files, upper) == Err(DriverResult(keyCodes, baseline, files[i].1, upper).error)
    decreases i
  {
    if i > 0 {
      var rest := files[1..];
      assert DriverResult(keyCodes, baseline, files[0].1, upper).Ok?;
      var s := Advance(keyCodes, baseline, st, files[0].0, files[0].1, upper).value;
      assert rest[i - 1] == files[i];
      assert forall j :: 0 <= j < i - 1 ==> rest[j] == files[j + 1];
      DriversFailAt(keyCodes, baseline, s, rest, upper, i - 1);
    }
  }

  /** A name no driver carries keeps its summary and mappings, or their
      absence. */
  lemma {:induction false} DriversOthers(keyCodes: map<string, VkEntry>, baseline: map<JsNum, string>, st: RunState,
                                         files: seq<(string, LayoutFiles)>, upper: CaseMapping, n: string)
    requires Drivers(keyCodes, baseline, st, files, upper).Ok?
    requires forall i :: 0 <= i < |files| ==> files[i].0 != n
    ensures n in Drivers(keyCodes, baseline, st, files, upper).value.summaries <==> n in st.summaries
    ensures n in st.summaries ==> Drivers(keyCodes, baseline, st, files, upper).value.summaries[n] == st.summaries[n]
    ensures n in Drivers(keyCodes, baseline, st, files, upper).value.vkCodes <==> n in st.vkCodes
    ensures n in st.vkCodes ==> Drivers(keyCodes, baseline, st, files, upper).value.vkCodes[n] == st.vkCodes[n]
    decreases |files|
  {
    if files != [] {
      var d := DriverResult(keyCodes, baseline, files[0].1, upper).value;
      var s := Advance(keyCodes, baseline, st, files[0].0, files[0].1, upper).value;
      AbsorbAllOthers(st.summaries, files[0].0, d.found, n);
      var rest := files[1..];
      assert forall i :: 0 <= i < |rest| ==> rest[i] == files[i + 1];
      DriversOthers(keyCodes, baseline, s, rest, upper, n);
    }
  }

  /** What the loop records for a driver, names being distinct and the
      driver having no summary before: its mappings, and a summary exactly
      when its info document yields some KLID pair, holding the ids and
      languages of those pairs. */
  lemma {:induction false} DriversEntry(keyCodes: map<string, VkEntry>, baseline: map<JsNum, string>, st: RunState,
                                        files: seq<(string, LayoutFiles)>, upper: CaseMapping, i: nat)
    requires DistinctNames(files) && Drivers(keyCodes, baseline, st, files, upper).Ok?
    requires i < |files| && files[i].0 !in st.summaries
    ensures DriverResult(keyCodes, baseline, files[i].1, upper).Ok?
    ensures Recorded(Drivers(keyCodes, baseline, st, files, upper).value, files[i].0,
                     DriverResult(keyCodes, baseline, files[i].1, upper).value)
    decreases i
  {
    DriversOkIff(keyCodes, baseline, st, files, upper);
    var d0 := DriverResult(keyCodes, baseline, files[0].1, upper).value;
    var s := Advance(keyCodes, baseline, st, files[0].0, files[0].1, upper).value;
    var rest := files[1..];
    assert forall j :: 0 <= j < |rest| ==> rest[j] == files[j + 1];
    if i == 0 {
      DriversFirstEntry(keyCodes, baseline, st, files, upper);
    } else {
      AbsorbAllOthers(st.summaries, files[0].0, d0.found, files[i].0);
      assert rest[i - 1] == files[i];
      DriversEntry(keyCodes, baseline, s, rest, upper, i - 1);
    }
  }

  /** The state records driver `name` with data `d`. */
  predicate Recorded(r: RunState, name: string, d: DriverData) {
    name in r.vkCodes && r.vkCodes[name] == d.codes &&
    (name in r.summaries <==> d.found != []) &&
    (d.found != [] ==> r.summaries[name] == Summary(Ids(d.found), Langs(d.found), EmptyMappings))
  }

  lemma DriversFirstEntry(keyCodes: map<string, VkEntry>, baseline: map<JsNum, string>, st: RunState,
                          files: seq<(string, LayoutFiles)>, upper: CaseMapping)
    requires DistinctNames(files) && Drivers(keyCodes, baseline, st, files, upper).Ok?
    requires files != [] && files[0].0 !in st.summaries
    requires DriverResult(keyCodes, baseline, files[0].1, upper).Ok?
    ensures Recorded(Drivers(keyCodes, baseline, st, files, upper).value, files[0].0,
                     DriverResult(keyCodes, baseline, files[0].1, upper).value)
  {
    var d := DriverResult(keyCodes, baseline, files[0].1, upper).value;
    var s := Advance(keyCodes, baseline, st, files[0].0, files[0].1, upper).value;
    var rest := files[1..];
    assert forall j :: 0 <= j < |rest| ==> rest[j] == files[j + 1];
    assert Drivers(keyCodes, baseline, st, files, upper) == Drivers(keyCodes, baseline, s, rest, upper);
    assert Recorded(s, files[0].0, d) by {
      AbsorbAllSummary(st.summaries, files[0].0, d.found);
    }
    DriversOthers(keyCodes, baseline, s, rest, upper, files[0].0);
  }

  /** The written store, driver by driver: a driver has an entry exactly
      when its info document yields some KLID pair, and the entry holds the
      ids and languages of those pairs with the driver's own mappings
      against the baseline (never the empty default). */
  lemma StoreEntry(keyCodes: map<string, VkEntry>, files: seq<(string, LayoutFiles)>, upper: CaseMapping, i: nat)
    requires DistinctNames(files) && ProcessSpec(keyCodes, files, upper).Ok? && i < |files|
    ensures BaselineMappings(keyCodes, files, upper).Ok?
    ensures DriverResult(keyCodes, BaselineMappings(keyCodes, files, upper).value.vk, files[i].1, upper).Ok?
    ensures var d := DriverResult(keyCodes, BaselineMappings(keyCodes, files, upper).value.vk, files[i].1, upper).value;
            var store := ProcessSpec(keyCodes, files, upper).value;
            (files[i].0 in store <==> d.found != []) &&
            (d.found != [] ==> store[files[i].0] == Summary(Ids(d.found), Langs(d.found), d.codes))
  {
    var base := BaselineMappings(keyCodes, files, upper).value;
    DriversEntry(keyCodes, base.vk, RunState(map[], map[BaselineDriver := base]), files, upper, i);
  }

  /** Every entry of the store is a driver's. */
  lemma StoreKeys(keyCodes: map<string, VkEntry>, files: seq<(string, LayoutFiles)>, upper: CaseMapping, n: string)
    requires ProcessSpec(keyCodes, files, upper).Ok? && n in ProcessSpec(keyCodes, files, upper).value
    ensures exists i :: 0 <= i < |files| && files[i].0 == n
  {
    var base := BaselineMappings(keyCodes, files, upper).value;
    if forall i :: 0 <= i < |files| ==> files[i].0 != n {
      DriversOthers(keyCodes, base.vk, RunState(map[], map[BaselineDriver := base]), files, upper, n);
    }
  }

  /** `kbdus` is read twice, as the baseline and then as a driver diffed
      against it. When the language of its first record upper-cases text
      as `en-US` does and its glyph candidates agree, its stored glyph
      overrides are empty. */
  lemma BaselineDriverNoOverrides(keyCodes: map<string, VkEntry>, files: seq<(string, LayoutFiles)>, upper: CaseMapping,
                                  i: nat, records: seq<Metadata>, keys: seq<Key>)
    requires DistinctNames(files) && ProcessSpec(keyCodes, files, upper).Ok?
    requires i < |files| && files[i].0 == BaselineDriver && files[i].1.keys == Some(keys)
    requires files[i].1.info.Some? && ScanTables(files[i].1.info.value).Ok?
    requires records == ScanTables(files[i].1.info.value).value.records
    requires forall t :: upper(t, FirstLang(records)) == upper(t, Some(BaselineLang))
    requires Consistent(Emitted(keys, GlyphOf(keyCodes, Some(BaselineLang), upper)))
    ensures BaselineDriver in ProcessSpec(keyCodes, files, upper).value ==>
              ProcessSpec(keyCodes, files, upper).value[BaselineDriver].codes.vk == map[]
  {
    StoreEntry(keyCodes, files, upper, i);
    BaselineIsFullTable(keyCodes, files, upper);
    var j :| 0 <= j < |files| && files[j] == (BaselineDriver, Lookup(files, BaselineDriver).value);
    assert j == i;
    var full := FullGlyphTable(keyCodes, Some(BaselineLang), upper, keys);
    SameCaseSameTable(keyCodes, full, FirstLang(records), Some(BaselineLang), upper, keys);
    GlyphSelfDiffEmpty(keyCodes, Some(BaselineLang), upper, keys);
  }

  /** Two languages that upper-case alike give the same glyph table. */
  lemma {:induction false} SameCaseSameTable(keyCodes: map<string, VkEntry>, baseline: map<JsNum, string>,
                                             lang: Option<string>, other: Option<string>, upper: CaseMapping, keys: seq<Key>)
    requires forall t :: upper(t, lang) == upper(t, other)
    ensures GlyphTable(keyCodes, baseline, lang, upper, keys) == GlyphTable(keyCodes, baseline, other, upper, keys)
  {
    if keys != [] {
      SameCaseSameTable(keyCodes, baseline, lang, other, upper, keys[..|keys| - 1]);
      assert GlyphWrite(keyCodes, baseline, lang, upper, keys[|keys| - 1]) ==
             GlyphWrite(keyCodes, baseline, other, upper, keys[|keys| - 1]);
    }
  }

  // ------------------------------------------------- helper facts about the folds

  /** What one more key does to the error and to the two tables. */
  lemma KeyStep(keyCodes: map<string, VkEntry>, baseline: map<JsNum, string>, lang: Option<string>, upper: CaseMapping,
                keys: seq<Key>, i: nat)
    requires i < |keys| && FirstKeyError(keyCodes, lang, upper, keys[..i]).None?
    ensures FirstKeyError(keyCodes, lang, upper, keys[..i + 1]) == KeyError(keyCodes, lang, upper, keys[i])
    ensures ScanTable(keyCodes, keys[..i + 1]) == Put(ScanTable(keyCodes, keys[..i]), ScanWrite(keyCodes, keys[i]))
    ensures GlyphTable(keyCodes, baseline, lang, upper, keys[..i + 1]) ==
              Put(GlyphTable(keyCodes, baseline, lang, upper, keys[..i]), GlyphWrite(keyCodes, baseline, lang, upper, keys[i]))
  {
    assert keys[..i + 1][..i] == keys[..i] && keys[..i + 1][i] == keys[i];
  }

  lemma AbsorbAllSnoc(summaries: map<string, Summary>, name: string, found: seq<Klid>, k: Klid)
    ensures AbsorbAll(summaries, name, found + [k]) == Absorb(AbsorbAll(summaries, name, found), name, k)
  {
    assert (found + [k])[..|found|] == found;
  }

  lemma {:induction false} AbsorbAllAppend(summaries: map<string, Summary>, name: string, a: seq<Klid>, b: seq<Klid>)
    ensures AbsorbAll(summaries, name, a + b) == AbsorbAll(AbsorbAll(summaries, name, a), name, b)
  {
    if b == [] {
      assert a + b == a;
    } else {
      var b' := b[..|b| - 1];
      assert (a + b)[..|a + b| - 1] == a + b';
      AbsorbAllAppend(summaries, name, a, b');
    }
  }

}
