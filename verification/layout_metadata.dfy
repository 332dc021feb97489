/** What `getLayoutMetadata` in scripts/process-windows-layouts.mjs reads
    from a driver's info document: one record per metadata table headed
    `KLID`, and the KLID / language pairs that go into the driver's summary.
    The loop itself is `LayoutProcessor.GetLayoutMetadata`; this module is
    its specification and the properties of that specification. */
module LayoutMetadata {
  import opened Wrappers
  import opened JsText
  import opened KeyMappings

  /** A `tr` of a metadata table: the text of its `th` cells and the text
      of its `td` cells, before trimming. */
  datatype MetaRow = MetaRow(header: string, data: string)

  type MetaTable = seq<MetaRow>

  /** One `{id, lang, layout}` record. */
  datatype Metadata = Metadata(id: string, lang: string, layout: string)

  /** An id and a language read from a `KLID` value. */
  datatype Klid = Klid(id: string, lang: string)

  /** The one way the call throws: a `KLID` value the pattern does not match. */
  datatype MetadataError = BadKlid(value: string)

  /** A driver's summary: its KLIDs, its languages and its mappings. */
  datatype Summary = Summary(klids: set<string>, langs: set<string>, codes: Mappings)

  const KlidHeader := "KLID"
  const DisplayNameHeader := "Layout Display Name"
  const BlankRecord := Metadata("", "", "")

  // ------------------------------------------------- /(?<id>[\da-z]+) \((?<lang>.+)\)/

  predicate IsIdChar(c: char) { '0' <= c <= '9' || 'a' <= c <= 'z' }

  predicate IsIdText(s: string) {
    s != [] && forall i :: 0 <= i < |s| ==> IsIdChar(s[i])
  }

  /** Text a `.` run can cover: no line terminators. */
  predicate OnOneLine(s: string) {
    forall i :: 0 <= i < |s| ==> !IsLineTerminator(s[i])
  }

  /** The end of the `[\da-z]` run starting at `p`. */
  function IdRunEnd(s: string, p: nat): (e: nat)
    requires p <= |s|
    decreases |s| - p
    ensures p <= e <= |s|
    ensures forall j :: p <= j < e ==> IsIdChar(s[j])
    ensures e < |s| ==> !IsIdChar(s[e])
  {
    if p == |s| || !IsIdChar(s[p]) then p else IdRunEnd(s, p + 1)
  }

  /** The first line terminator at or after `p`, or the end of `s`. */
  function LineEnd(s: string, p: nat): (e: nat)
    requires p <= |s|
    decreases |s| - p
    ensures p <= e <= |s|
    ensures forall j :: p <= j < e ==> !IsLineTerminator(s[j])
    ensures e < |s| ==> IsLineTerminator(s[e])
  {
    if p == |s| || IsLineTerminator(s[p]) then p else LineEnd(s, p + 1)
  }

  /** The last `)` in `s[lo..hi]`: where the greedy `.+` gives back to. */
  function LastClose(s: string, lo: nat, hi: nat): (k: Option<nat>)
    requires hi <= |s|
    ensures k.Some? ==> lo <= k.value < hi && s[k.value] == ')'
    ensures k.Some? ==> forall j :: k.value < j < hi ==> s[j] != ')'
    ensures k.None? ==> forall j :: lo <= j < hi ==> s[j] != ')'
  {
    if hi <= lo then None
    else if s[hi - 1] == ')' then Some(hi - 1)
    else LastClose(s, lo, hi - 1)
  }

  /** `id + " (" + lang + ")"` occurs in `s` at `p`. */
  predicate KlidAt(s: string, p: nat, k: Klid) {
    var n := |k.id|;
    var m := |k.lang|;
    p + n + m + 3 <= |s| && s[p..p + n] == k.id && s[p + n] == ' ' && s[p + n + 1] == '('
    && s[p + n + 2..p + n + 2 + m] == k.lang && s[p + n + 2 + m] == ')'
  }

  /** The match attempt starting at `p`. */
  function MatchAt(s: string, p: nat): (r: Option<Klid>)
    requires p < |s|
    ensures r.Some? ==> IsIdText(r.value.id) && r.value.lang != [] && OnOneLine(r.value.lang)
    ensures r.Some? ==> KlidAt(s, p, r.value)
    ensures r.Some? ==> IdRunEnd(s, p) == p + |r.value.id|
    ensures r.Some? ==> forall j :: p + |r.value.id| + 2 + |r.value.lang| < j < LineEnd(s, p + |r.value.id| + 2) ==> s[j] != ')'
  {
    if !IsIdChar(s[p]) then None
    else
      var e := IdRunEnd(s, p);
      if e + 1 < |s| && s[e] == ' ' && s[e + 1] == '(' then
        match LastClose(s, e + 3, LineEnd(s, e + 2))
        case None => None
        case Some(k) =>
          assert s[p..e][0] == s[p];
          Some(Klid(s[p..e], s[e + 2..k]))
      else None
  }

  /** The leftmost match at or after `p`. */
  function ParseKlidFrom(s: string, p: nat): Option<Klid>
    decreases |s| - p
  {
    if p >= |s| then None
    else
      match MatchAt(s, p)
      case Some(k) => Some(k)
      case None => ParseKlidFrom(s, p + 1)
  }

  /** `value.match(...)?.groups`. */
  function ParseKlid(s: string): Option<Klid>
  {
    ParseKlidFrom(s, 0)
  }

  /** A well-formed KLID: a non-empty `[0-9a-z]` id and a non-empty
      one-line language. */
  predicate WellFormed(k: Klid) {
    IsIdText(k.id) && k.lang != [] && OnOneLine(k.lang)
  }

  /** The attempt at `p` succeeds whenever a well-formed `id (lang)` starts
      there: the id run then ends at the space, and the line holds the
      closing parenthesis. */
  lemma MatchAtComplete(s: string, p: nat, k: Klid)
    requires p < |s| && WellFormed(k) && KlidAt(s, p, k)
    ensures MatchAt(s, p).Some?
  {
    var n := |k.id|;
    var m := |k.lang|;
    assert forall j :: p <= j < p + n ==> s[j] == k.id[j - p];
    assert IdRunEnd(s, p) == p + n;
    var e := p + n;
    assert forall j :: e + 2 <= j < e + 2 + m ==> s[j] == k.lang[j - e - 2];
    assert LineEnd(s, e + 2) > e + 2 + m;
  }

  /** Searching from `p` finds a match whenever an attempt at or after `p`
      succeeds. */
  lemma {:induction false} ParseKlidFromReaches(s: string, p: nat, q: nat)
    requires p <= q < |s| && MatchAt(s, q).Some?
    ensures ParseKlidFrom(s, p).Some?
    decreases q - p
  {
    if p < q && MatchAt(s, p).None? {
      ParseKlidFromReaches(s, p + 1, q);
    }
  }

  /** What a search from `p` returns is the match of the leftmost
      successful attempt: a well-formed id and language, `id (lang)`
      occurring there, and every earlier attempt failing. */
  lemma {:induction false} ParseKlidFromSound(s: string, p: nat)
    requires ParseKlidFrom(s, p).Some?
    ensures exists q :: p <= q < |s| && MatchAt(s, q) == ParseKlidFrom(s, p) &&
              forall j :: p <= j < q ==> MatchAt(s, j).None?
    ensures WellFormed(ParseKlidFrom(s, p).value)
    decreases |s| - p
  {
    if MatchAt(s, p).None? {
      ParseKlidFromSound(s, p + 1);
      var q :| p + 1 <= q < |s| && MatchAt(s, q) == ParseKlidFrom(s, p + 1) &&
               forall j :: p + 1 <= j < q ==> MatchAt(s, j).None?;
      assert forall j :: p <= j < q ==> MatchAt(s, j).None?;
    }
  }

  /** `value.match(...)`: the value matches exactly when a well-formed
      `id (lang)` occurs in it; the groups read are those of the leftmost
      match, whose id is a whole `[0-9a-z]` run and whose language runs to
      the last `)` on its line. */
  lemma ParseKlidSound(s: string)
    ensures ParseKlid(s).Some? <==> exists q, k :: 0 <= q < |s| && WellFormed(k) && KlidAt(s, q, k)
    ensures ParseKlid(s).Some? ==> WellFormed(ParseKlid(s).value)
    ensures ParseKlid(s).Some? ==>
              exists q :: 0 <= q < |s| && MatchAt(s, q) == ParseKlid(s) && forall j :: 0 <= j < q ==> MatchAt(s, j).None?
  {
    if ParseKlid(s).Some? {
      ParseKlidFromSound(s, 0);
      var q :| 0 <= q < |s| && MatchAt(s, q) == ParseKlid(s) && forall j :: 0 <= j < q ==> MatchAt(s, j).None?;
      assert KlidAt(s, q, ParseKlid(s).value);
    }
    if exists q, k :: 0 <= q < |s| && WellFormed(k) && KlidAt(s, q, k) {
      var q, k :| 0 <= q < |s| && WellFormed(k) && KlidAt(s, q, k);
      ParseKlidComplete(s, q, k);
    }
  }

  /** A well-formed `id (lang)` anywhere in the value makes it match, so
      `BadKlid` is raised only for values without one. */
  lemma ParseKlidComplete(s: string, q: nat, k: Klid)
    requires q < |s| && WellFormed(k) && KlidAt(s, q, k)
    ensures ParseKlid(s).Some?
  {
    MatchAtComplete(s, q, k);
    ParseKlidFromReaches(s, 0, q);
  }

  /** A value written as `id (lang)` reads back as that id and language;
      the language may itself contain parentheses, since `.+` is greedy up
      to the last `)`. */
  lemma ParseKlidOfFormatted(id: string, lang: string)
    requires IsIdText(id) && lang != [] && OnOneLine(lang)
    ensures ParseKlid(id + " (" + lang + ")") == Some(Klid(id, lang))
  {
    var s := id + " (" + lang + ")";
    var n := |id|;
    assert s[n] == ' ' && s[n + 1] == '(';
    assert forall j :: 0 <= j < n ==> s[j] == id[j];
    assert IdRunEnd(s, 0) == n;
    assert forall j :: n + 2 <= j < |s| - 1 ==> s[j] == lang[j - n - 2];
    assert LineEnd(s, n + 2) == |s|;
    assert LastClose(s, n + 3, |s|) == Some(|s| - 1);
    assert s[0..n] == id;
    assert s[n + 2..|s| - 1] == lang;
  }

  /** A value without `(` never matches. */
  lemma {:induction false} NoParenNoKlid(s: string, p: nat)
    requires '(' !in s
    ensures ParseKlidFrom(s, p) == None
    decreases |s| - p
  {
    if p < |s| {
      if IsIdChar(s[p]) {
        var e := IdRunEnd(s, p);
        if e + 1 < |s| {
          assert s[e + 1] in s;
        }
      }
      NoParenNoKlid(s, p + 1);
    }
  }

  /** The worked example `00000409 (English (United States))`: id
      `00000409`, language `English (United States)`. */
  lemma KlidExample(id: string, lang: string)
    requires id == "00000409" && lang == "English (United States)"
    ensures ParseKlid("00000409 (English (United States))") == Some(Klid(id, lang))
  {
    assert id + " (" + lang + ")" == "00000409 (English (United States))";
    assert IsIdText(id);
    assert OnOneLine(lang);
    ParseKlidOfFormatted(id, lang);
  }

  /** The worked example `badvalue`: no match, so the call throws. */
  lemma BadValueExample(s: string)
    requires s == "badvalue"
    ensures ParseKlid(s) == None
  {
    assert '(' !in s;
    NoParenNoKlid(s, 0);
  }

  // ------------------------------------------------- one table

  /** What one table's row loop has built so far: the record and the KLID
      pairs it has read, in order. */
  datatype TableScan = TableScan(record: Metadata, found: seq<Klid>)

  /** The effect of one row: a `KLID` row sets the id and language (or
      throws), a `Layout Display Name` row sets the layout, others do
      nothing. Header and value are compared after trimming. */
  function RowStep(ts: TableScan, row: MetaRow): Result<TableScan, MetadataError>
  {
    var key := Trim(row.header);
    var value := Trim(row.data);
    if key == KlidHeader then
      match ParseKlid(value)
      case None => Err(BadKlid(value))
      case Some(k) => Ok(TableScan(ts.record.(id := k.id, lang := k.lang), ts.found + [k]))
    else if key == DisplayNameHeader then Ok(TableScan(ts.record.(layout := value), ts.found))
    else Ok(ts)
  }

  /** A row that makes the loop throw: a `KLID` row whose value does not match. */
  predicate BadKlidRow(row: MetaRow) {
    Trim(row.header) == KlidHeader && ParseKlid(Trim(row.data)).None?
  }

  /** The row loop over `rows`, from a blank record. */
  function ScanRows(rows: MetaTable): Result<TableScan, MetadataError>
  {
    if rows == [] then Ok(TableScan(BlankRecord, []))
    else
      match ScanRows(rows[..|rows| - 1])
      case Err(e) => Err(e)
      case Ok(ts) => RowStep(ts, rows[|rows| - 1])
  }

  /** What a successful row step does to the layout. */
  lemma RowStepKlid(ts: TableScan, row: MetaRow)
    requires RowStep(ts, row).Ok?
    ensures Trim(row.header) == KlidHeader ==>
              var k := ParseKlid(Trim(row.data));
              k.Some? && RowStep(ts, row).value.record.id == k.value.id &&
              RowStep(ts, row).value.record.lang == k.value.lang &&
              RowStep(ts, row).value.found == ts.found + [k.value]
    ensures Trim(row.header) != KlidHeader ==>
              RowStep(ts, row).value.record.id == ts.record.id &&
              RowStep(ts, row).value.record.lang == ts.record.lang &&
              RowStep(ts, row).value.found == ts.found
  {
  }

  lemma RowStepLayout(ts: TableScan, row: MetaRow)
    requires RowStep(ts, row).Ok?
    ensures RowStep(ts, row).value.record.layout ==
              if Trim(row.header) == DisplayNameHeader then Trim(row.data) else ts.record.layout
  {
  }

  /** The trimmed header text of the table's first row; a table without
      rows reads as the empty string. */
  function FirstHeader(rows: MetaTable): string {
    if rows == [] then "" else Trim(rows[0].header)
  }

  // ------------------------------------------------- all tables

  /** The records and the KLID pairs read so far. */
  datatype Scan = Scan(records: seq<Metadata>, found: seq<Klid>)

  /** The table loop: tables not headed `KLID` are skipped; each other one
      adds its record and its pairs, or stops the call with its error. */
  function ScanTables(tables: seq<MetaTable>): Result<Scan, MetadataError>
  {
    if tables == [] then Ok(Scan([], []))
    else
      match ScanTables(tables[..|tables| - 1])
      case Err(e) => Err(e)
      case Ok(sc) =>
        var t := tables[|tables| - 1];
        if FirstHeader(t) != KlidHeader then Ok(sc)
        else
          match ScanRows(t)
          case Err(e) => Err(e)
          case Ok(ts) => Ok(Scan(sc.records + [ts.record], sc.found + ts.found))
  }

  /** `getLayoutMetadata`'s return value. */
  function LayoutRecords(tables: seq<MetaTable>): Result<seq<Metadata>, MetadataError>
  {
    match ScanTables(tables)
    case Err(e) => Err(e)
    case Ok(sc) => Ok(sc.records)
  }

  // ------------------------------------------------- the driver summaries

  /** `driverSummaries.set(name, driverSummaries.get(name) || {...})`
      followed by adding the id and the language to its sets. */
  function Absorb(summaries: map<string, Summary>, name: string, k: Klid): map<string, Summary>
  {
    var s := if name in summaries then summaries[name] else Summary({}, {}, EmptyMappings);
    summaries[name := s.(klids := s.klids + {k.id}, langs := s.langs + {k.lang})]
  }

  /** Absorbing the pairs read, in order. */
  function AbsorbAll(summaries: map<string, Summary>, name: string, found: seq<Klid>): map<string, Summary>
  {
    if found == [] then summaries
    else Absorb(AbsorbAll(summaries, name, found[..|found| - 1]), name, found[|found| - 1])
  }

  function Ids(found: seq<Klid>): set<string> {
    set i | 0 <= i < |found| :: found[i].id
  }

  function Langs(found: seq<Klid>): set<string> {
    set i | 0 <= i < |found| :: found[i].lang
  }

  lemma IdsSnoc(found: seq<Klid>)
    requires found != []
    ensures Ids(found) == Ids(found[..|found| - 1]) + {found[|found| - 1].id}
    ensures Langs(found) == Langs(found[..|found| - 1]) + {found[|found| - 1].lang}
  {
    var init := found[..|found| - 1];
    assert forall i :: 0 <= i < |init| ==> init[i] == found[i];
    forall x | x in Ids(found) ensures x in Ids(init) + {found[|found| - 1].id} {
      var i :| 0 <= i < |found| && found[i].id == x;
    }
    forall x | x in Langs(found) ensures x in Langs(init) + {found[|found| - 1].lang} {
      var i :| 0 <= i < |found| && found[i].lang == x;
    }
  }

  /** Reading pairs for one driver leaves every other driver's summary, and
      its absence, as they were. */
  lemma {:induction false} AbsorbAllOthers(summaries: map<string, Summary>, name: string, found: seq<Klid>, other: string)
    requires other != name
    ensures other in AbsorbAll(summaries, name, found) <==> other in summaries
    ensures other in summaries ==> AbsorbAll(summaries, name, found)[other] == summaries[other]
  {
    if found != [] {
      AbsorbAllOthers(summaries, name, found[..|found| - 1], other);
    }
  }

  /** The pairs read are added to the driver's sets, its summary being
      created on the first pair, with empty mappings; without pairs nothing
      changes. */
  lemma {:induction false} AbsorbAllSummary(summaries: map<string, Summary>, name: string, found: seq<Klid>)
    ensures found == [] ==> AbsorbAll(summaries, name, found) == summaries
    ensures found != [] ==> name in AbsorbAll(summaries, name, found)
    ensures found != [] ==>
              var s := if name in summaries then summaries[name] else Summary({}, {}, EmptyMappings);
              AbsorbAll(summaries, name, found)[name] == Summary(s.klids + Ids(found), s.langs + Langs(found), s.codes)
  {
    if found != [] {
      var init := found[..|found| - 1];
      AbsorbAllSummary(summaries, name, init);
      IdsSnoc(found);
      if init == [] {
        assert Ids(init) == {} && Langs(init) == {};
      }
    }
  }

  /** Adding a pair the summary already holds changes nothing. */
  lemma AbsorbIdempotent(summaries: map<string, Summary>, name: string, k: Klid)
    ensures Absorb(Absorb(summaries, name, k), name, k) == Absorb(summaries, name, k)
  {
    var s := if name in summaries then summaries[name] else Summary({}, {}, EmptyMappings);
    var t := s.(klids := s.klids + {k.id}, langs := s.langs + {k.lang});
    assert t.(klids := t.klids + {k.id}, langs := t.langs + {k.lang}) == t;
  }

  // ------------------------------------------------- properties of the scan

  /** A row loop that fails keeps failing with the same error. */
  lemma {:induction false} ScanRowsErrExtend(rows: MetaTable, j: nat)
    requires j <= |rows| && ScanRows(rows[..j]).Err?
    ensures ScanRows(rows) == ScanRows(rows[..j])
  {
    if j < |rows| {
      assert rows[..|rows| - 1][..j] == rows[..j];
      ScanRowsErrExtend(rows[..|rows| - 1], j);
    } else {
      assert rows[..j] == rows;
    }
  }

  /** A table loop that fails keeps failing with the same error. */
  lemma {:induction false} ScanTablesErrExtend(tables: seq<MetaTable>, j: nat)
    requires j <= |tables| && ScanTables(tables[..j]).Err?
    ensures ScanTables(tables) == ScanTables(tables[..j])
  {
    if j < |tables| {
      assert tables[..|tables| - 1][..j] == tables[..j];
      ScanTablesErrExtend(tables[..|tables| - 1], j);
    } else {
      assert tables[..j] == tables;
    }
  }

  /** A table's row loop fails exactly when one of its rows is a bad
      `KLID` row. */
  lemma {:induction false} ScanRowsFails(rows: MetaTable)
    ensures ScanRows(rows).Err? <==> exists i :: 0 <= i < |rows| && BadKlidRow(rows[i])
  {
    if rows != [] {
      var init := rows[..|rows| - 1];
      var last := rows[|rows| - 1];
      ScanRowsFails(init);
      if ScanRows(init).Err? {
        var i :| 0 <= i < |init| && BadKlidRow(init[i]);
        assert rows[i] == init[i];
      } else {
        if !BadKlidRow(last) {
          forall i | 0 <= i < |rows| ensures !BadKlidRow(rows[i]) {
            if i < |init| {
              assert rows[i] == init[i];
            }
          }
        }
      }
    }
  }

  /** The tables headed `KLID`, in document order. */
  function KlidTables(tables: seq<MetaTable>): (r: seq<MetaTable>)
    ensures |r| <= |tables|
  {
    if tables == [] then []
    else
      var init := KlidTables(tables[..|tables| - 1]);
      if FirstHeader(tables[|tables| - 1]) == KlidHeader then init + [tables[|tables| - 1]] else init
  }

  /** The call fails exactly when a table headed `KLID` has a bad `KLID`
      row; rows of other tables are never looked at. */
  lemma {:induction false} ScanTablesFails(tables: seq<MetaTable>)
    ensures ScanTables(tables).Err? <==>
              exists i :: 0 <= i < |KlidTables(tables)| && ScanRows(KlidTables(tables)[i]).Err?
  {
    if tables != [] {
      var init := tables[..|tables| - 1];
      var t := tables[|tables| - 1];
      ScanTablesFails(init);
      var ki := KlidTables(init);
      if FirstHeader(t) == KlidHeader {
        var kt := ki + [t];
        assert KlidTables(tables) == kt;
        if ScanTables(init).Err? {
          var i :| 0 <= i < |ki| && ScanRows(ki[i]).Err?;
          assert kt[i] == ki[i];
        } else if ScanRows(t).Err? {
          assert kt[|ki|] == t;
        } else {
          forall i | 0 <= i < |kt| ensures ScanRows(kt[i]).Ok? {
            if i < |ki| {
              assert kt[i] == ki[i];
            }
          }
        }
      } else {
        assert KlidTables(tables) == ki;
      }
    }
  }

  /** A successful call returns one record per table headed `KLID`, in
      document order, each being what that table's rows build; and the pairs
      read are those tables' pairs, in order. */
  lemma {:induction false} RecordsPerKlidTable(tables: seq<MetaTable>)
    requires ScanTables(tables).Ok?
    ensures |ScanTables(tables).value.records| == |KlidTables(tables)|
    ensures forall i :: 0 <= i < |KlidTables(tables)| ==>
              ScanRows(KlidTables(tables)[i]).Ok? &&
              ScanRows(KlidTables(tables)[i]).value.record == ScanTables(tables).value.records[i]
    ensures ScanTables(tables).value.found == FoundIn(KlidTables(tables))
  {
    if tables != [] {
      var init := tables[..|tables| - 1];
      var t := tables[|tables| - 1];
      RecordsPerKlidTable(init);
      if FirstHeader(t) == KlidHeader {
        var ki := KlidTables(init);
        var kt := ki + [t];
        assert kt[..|kt| - 1] == ki;
        assert forall i :: 0 <= i < |ki| ==> kt[i] == ki[i];
      }
    }
  }

  /** The pairs the row loops of `tables` read, in order. */
  function FoundIn(tables: seq<MetaTable>): seq<Klid>
  {
    if tables == [] then []
    else
      var t := tables[|tables| - 1];
      FoundIn(tables[..|tables| - 1]) + (if ScanRows(t).Ok? then ScanRows(t).value.found else [])
  }

  /** Row `i` is the last row whose trimmed header is `header`. */
  predicate LastRowWith(rows: MetaTable, header: string, i: nat) {
    i < |rows| && Trim(rows[i].header) == header &&
    forall j :: i < j < |rows| ==> Trim(rows[j].header) != header
  }

  predicate NoRowWith(rows: MetaTable, header: string) {
    forall i :: 0 <= i < |rows| ==> Trim(rows[i].header) != header
  }

  /** A table without a `KLID` row reads no pair and leaves the id and
      the language empty. */
  lemma {:induction false} TableWithoutKlid(rows: MetaTable)
    requires ScanRows(rows).Ok? && NoRowWith(rows, KlidHeader)
    ensures ScanRows(rows).value.record.id == "" && ScanRows(rows).value.record.lang == ""
    ensures ScanRows(rows).value.found == []
  {
    if rows != [] {
      var init := rows[..|rows| - 1];
      assert forall i :: 0 <= i < |init| ==> init[i] == rows[i];
      assert NoRowWith(init, KlidHeader);
      TableWithoutKlid(init);
      RowStepKlid(ScanRows(init).value, rows[|rows| - 1]);
    }
  }

  /** A table's id and language come from its last `KLID` row, whose pair
      is also the last one read. */
  lemma {:induction false} TableKlid(rows: MetaTable, i: nat)
    requires ScanRows(rows).Ok? && LastRowWith(rows, KlidHeader, i)
    ensures ParseKlid(Trim(rows[i].data)) ==
              Some(Klid(ScanRows(rows).value.record.id, ScanRows(rows).value.record.lang))
    ensures ScanRows(rows).value.found != []
    ensures ScanRows(rows).value.found[|ScanRows(rows).value.found| - 1] ==
              Klid(ScanRows(rows).value.record.id, ScanRows(rows).value.record.lang)
  {
    var init := rows[..|rows| - 1];
    var last := rows[|rows| - 1];
    RowStepKlid(ScanRows(init).value, last);
    if i < |init| {
      assert forall j :: 0 <= j < |init| ==> init[j] == rows[j];
      assert LastRowWith(init, KlidHeader, i);
      TableKlid(init, i);
    } else {
      assert i == |rows| - 1;
    }
  }

  /** A table's layout comes from its last `Layout Display Name` row, and is
      empty when it has none. */
  lemma {:induction false} TableLayout(rows: MetaTable)
    requires ScanRows(rows).Ok?
    ensures NoRowWith(rows, DisplayNameHeader) ==> ScanRows(rows).value.record.layout == ""
    ensures forall i: nat :: LastRowWith(rows, DisplayNameHeader, i) ==>
              ScanRows(rows).value.record.layout == Trim(rows[i].data)
  {
    if rows != [] {
      var init := rows[..|rows| - 1];
      var last := rows[|rows| - 1];
      assert forall i :: 0 <= i < |init| ==> init[i] == rows[i];
      TableLayout(init);
      RowStepLayout(ScanRows(init).value, last);
      forall i: nat | LastRowWith(rows, DisplayNameHeader, i)
        ensures ScanRows(rows).value.record.layout == Trim(rows[i].data)
      {
        if i < |init| {
          assert LastRowWith(init, DisplayNameHeader, i);
          assert Trim(last.header) != DisplayNameHeader;
        } else {
          assert i == |rows| - 1;
        }
      }
      if NoRowWith(rows, DisplayNameHeader) {
        assert NoRowWith(init, DisplayNameHeader);
        assert Trim(last.header) != DisplayNameHeader;
      }
    }
  }

  /** A table headed `KLID` always reads at least one pair: its first row. */
  lemma KlidTableFindsPair(rows: MetaTable)
    requires FirstHeader(rows) == KlidHeader && ScanRows(rows).Ok?
    ensures ScanRows(rows).value.found != []
  {
    ScanRowsFound(rows, 1);
    assert rows[..1][..0] == [];
  }

  lemma {:induction false} ScanRowsFound(rows: MetaTable, j: nat)
    requires j <= |rows| && ScanRows(rows).Ok?
    ensures ScanRows(rows[..j]).Ok?
    ensures |ScanRows(rows[..j]).value.found| <= |ScanRows(rows).value.found|
  {
    if j < |rows| {
      var init := rows[..|rows| - 1];
      assert init[..j] == rows[..j];
      ScanRowsFound(init, j);
    } else {
      assert rows[..j] == rows;
    }
  }

  /** A successful call reads some pair exactly when it returns some
      record, so the driver gets a summary exactly when its document has a
      table headed `KLID`. */
  lemma {:induction false} FoundIffRecords(tables: seq<MetaTable>)
    requires ScanTables(tables).Ok?
    ensures ScanTables(tables).value.found == [] <==> ScanTables(tables).value.records == []
  {
    if tables != [] {
      var init := tables[..|tables| - 1];
      var t := tables[|tables| - 1];
      FoundIffRecords(init);
      if FirstHeader(t) == KlidHeader {
        KlidTableFindsPair(t);
      }
    }
  }
}
