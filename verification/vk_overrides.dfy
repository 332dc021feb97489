/** scripts/get-windows-vk-overrides.mjs: the selection of drivers from the
    stored overrides by driver name, KLID or language, and the three
    dictionaries printed for the drivers kept. */
module VkOverrides {
  import opened Wrappers
  import opened JsText

  /** The three filter kinds of the first argument. */
  datatype FilterKind = ByLanguage | ByKlid | ByDriver

  /** The ways the script throws before reading the store: an argument
      missing from the command line (`trim` of `undefined`), an unknown
      filter kind, or a value list with no value in it. */
  datatype FilterError = MissingArgument | BadFilterKind | NoFilterValues

  /** One driver's entry of the stored overrides, as read back: its KLIDs,
      its languages and its two tables. */
  datatype StoredDriver = StoredDriver(klids: seq<string>, langs: seq<string>, vk: map<string, string>, sc: map<string, JsNum>)

  /** The printed object. */
  datatype Filtered = Filtered(klidDrivers: map<string, string>,
                               vkToGlyphOverrides: map<string, map<string, string>>,
                               scToVkOverrides: map<string, map<string, JsNum>>)

  const EmptyFiltered := Filtered(map[], map[], map[])

  // ------------------------------------------------- the arguments

  /** The spelling of each filter kind on the command line. */
  function KindName(kind: FilterKind): string {
    match kind
    case ByLanguage => "language"
    case ByKlid => "klid"
    case ByDriver => "driver"
  }

  /** The first argument, trimmed, must spell one of the three kinds. */
  function ParseFilterKind(arg: Option<string>): (r: Result<FilterKind, FilterError>)
    ensures arg.None? ==> r == Err(MissingArgument)
    ensures arg.Some? ==> (r.Ok? <==> exists kind :: Trim(arg.value) == KindName(kind))
    ensures r.Ok? ==> Trim(arg.value) == KindName(r.value)
  {
    match arg
    case None => Err(MissingArgument)
    case Some(t) =>
      if Trim(t) == KindName(ByLanguage) then Ok(ByLanguage)
      else if Trim(t) == KindName(ByKlid) then Ok(ByKlid)
      else if Trim(t) == KindName(ByDriver) then Ok(ByDriver)
      else
        assert forall kind :: Trim(t) != KindName(kind);
        Err(BadFilterKind)
  }

  /** Each kind's name, with any white space around it, reads back as
      that kind. */
  lemma FilterKindPadded(w1: string, kind: FilterKind, w2: string)
    requires AllWhiteSpace(w1) && AllWhiteSpace(w2)
    ensures ParseFilterKind(Some(w1 + KindName(kind) + w2)) == Ok(kind)
  {
    TrimPadded(w1, KindName(kind), w2);
  }

  /** The pieces that are not the empty string, in order. */
  function NonEmptyPieces(parts: seq<string>): (r: seq<string>)
    ensures forall p :: p in r <==> p in parts && p != []
    ensures r == [] <==> forall p :: p in parts ==> |p| == 0
  {
    if parts == [] then []
    else
      assert parts == [parts[0]] + parts[1..];
      (if parts[0] != [] then [parts[0]] else []) + NonEmptyPieces(parts[1..])
  }

  function LowerAll(parts: seq<string>): seq<string> {
    seq(|parts|, i requires 0 <= i < |parts| => ToLower(parts[i]))
  }

  /** The second argument: trimmed, split on commas, empty pieces dropped,
      each piece lower-cased; no piece left is an error. The pieces
      themselves are not trimmed. */
  function FilterValues(arg: Option<string>): (r: Result<seq<string>, FilterError>)
    ensures r.Err? ==> arg.None? || r.error == NoFilterValues
    ensures r.Ok? ==> r.value != [] && forall v :: v in r.value ==> v != [] && ',' !in v && !HasUpper(v)
  {
    match arg
    case None => Err(MissingArgument)
    case Some(s) =>
      var pieces := NonEmptyPieces(Split(Trim(s), ','));
      var values := LowerAll(pieces);
      if values == [] then Err(NoFilterValues)
      else
        assert forall v :: v in values ==> v != [] && ',' !in v by {
          forall v | v in values ensures v != [] && ',' !in v {
            var i :| 0 <= i < |values| && values[i] == v;
            assert pieces[i] in pieces;
          }
        }
        Ok(values)
  }

  /** Dropping the empty pieces distributes over concatenation, so the
      pieces kept are in their original order. */
  lemma {:induction false} NonEmptyPiecesAppend(a: seq<string>, b: seq<string>)
    ensures NonEmptyPieces(a + b) == NonEmptyPieces(a) + NonEmptyPieces(b)
  {
    if a == [] {
      assert a + b == b;
    } else {
      assert (a + b)[0] == a[0] && (a + b)[1..] == a[1..] + b;
      NonEmptyPiecesAppend(a[1..], b);
    }
  }

  /** A single piece is kept exactly when it is not empty. */
  lemma NonEmptyPiecesSingle(p: string)
    ensures NonEmptyPieces([p]) == if p == [] then [] else [p]
  {
    assert [p][1..] == [];
  }

  /** Any comma-separated list, with white space around it and none at its
      ends, reads as its non-empty pieces, in order, each lower-cased;
      empty pieces anywhere in the list are dropped. */
  lemma FilterValuesOfJoin(w1: string, pieces: seq<string>, w2: string)
    requires AllWhiteSpace(w1) && AllWhiteSpace(w2)
    requires forall p :: p in pieces ==> ',' !in p
    requires Tight(Join(pieces, ','))
    requires exists p :: p in pieces && p != []
    ensures FilterValues(Some(w1 + Join(pieces, ',') + w2)) == Ok(LowerAll(NonEmptyPieces(pieces)))
  {
    var s := Join(pieces, ',');
    TrimPadded(w1, s, w2);
    SplitJoin(pieces, ',');
    var p :| p in pieces && p != [];
    assert p in NonEmptyPieces(pieces);
  }

  /** The worked example ` EN,,fr `: trimmed, split, the empty piece
      dropped and the rest lower-cased. */
  lemma FilterValuesExample(arg: string)
    requires arg == " EN,,fr "
    ensures FilterValues(Some(arg)) == Ok(["en", "fr"])
  {
    var pieces := ["EN", "", "fr"];
    ExamplePieces(pieces);
    assert pieces[0] in pieces;
    FilterValuesOfJoin(" ", pieces, " ");
  }

  lemma ExamplePieces(pieces: seq<string>)
    requires pieces == ["EN", "", "fr"]
    ensures " " + Join(pieces, ',') + " " == " EN,,fr "
    ensures forall p :: p in pieces ==> ',' !in p
    ensures Tight(Join(pieces, ','))
    ensures LowerAll(NonEmptyPieces(pieces)) == ["en", "fr"]
  {
    ExampleJoin(pieces);
    ExampleKept(pieces);
    assert ToLower("EN") == "en";
    assert ToLower("fr") == "fr";
  }

  lemma ExampleJoin(pieces: seq<string>)
    requires pieces == ["EN", "", "fr"]
    ensures Join(pieces, ',') == "EN,,fr"
  {
    var rest := ["", "fr"];
    assert pieces[1..] == rest && rest[1..] == ["fr"];
    assert Join(rest, ',') == ",fr";
  }

  lemma ExampleKept(pieces: seq<string>)
    requires pieces == ["EN", "", "fr"]
    ensures NonEmptyPieces(pieces) == ["EN", "fr"]
  {
    var rest := ["", "fr"];
    assert pieces[1..] == rest && rest[1..] == ["fr"] && ["fr"][1..] == [];
    assert NonEmptyPieces(rest) == ["fr"];
  }

  /** A list of non-empty, comma-free, lower-case values, joined with
      commas and with nothing to trim at its ends, reads back as itself. */
  lemma FilterValuesRoundTrip(values: seq<string>)
    requires values != []
    requires forall v :: v in values ==> v != [] && ',' !in v && !HasUpper(v)
    requires Tight(Join(values, ','))
    ensures FilterValues(Some(Join(values, ','))) == Ok(values)
  {
    var s := Join(values, ',');
    assert [] + s + [] == s;
    TrimPadded([], s, []);
    assert Trim(s) == s;
    SplitJoin(values, ',');
    NonEmptyAll(values);
    forall i | 0 <= i < |values| ensures LowerAll(values)[i] == values[i] {
      assert values[i] in values;
      ToLowerOfLower(values[i]);
    }
    assert LowerAll(values) == values;
  }

  lemma {:induction false} NonEmptyAll(parts: seq<string>)
    requires forall p :: p in parts ==> p != []
    ensures NonEmptyPieces(parts) == parts
  {
    if parts != [] {
      assert parts[0] in parts;
      assert forall p :: p in parts[1..] ==> p in parts;
      NonEmptyAll(parts[1..]);
    }
  }

  predicate AllCommas(s: string) {
    forall c :: c in s ==> c == ','
  }

  /** The value list is rejected exactly when the trimmed argument holds
      nothing but commas. */
  lemma FilterValuesEmpty(s: string)
    ensures FilterValues(Some(s)) == Err(NoFilterValues) <==> AllCommas(Trim(s))
  {
    var parts := Split(Trim(s), ',');
    assert |LowerAll(NonEmptyPieces(parts))| == |NonEmptyPieces(parts)|;
    if AllCommas(Trim(s)) {
      forall p | p in parts ensures p == [] {
        var k :| 0 <= k < |parts| && parts[k] == p;
        if p != [] {
          JoinContains(parts, ',', k, 0);
        }
      }
      var pieces := NonEmptyPieces(parts);
      assert FilterValues(Some(s)) == Err(NoFilterValues);
    } else {
      if NonEmptyPieces(parts) == [] {
        JoinOfEmpty(parts, ',');
      }
      assert FilterValues(Some(s)).Ok?;
    }
  }

  // ------------------------------------------------- the keep rule

  /** `new RegExp("^" + searchLang, "i").test(lang)`, the search text taken
      literally: `lang` starts with `searchLang`, letter case aside. */
  predicate IsPrefixIgnoringCase(searchLang: string, lang: string) {
    |searchLang| <= |lang| && ToLower(lang[..|searchLang|]) == ToLower(searchLang)
  }

  /** `includesLang`: some language of the list starts with `searchLang`,
      letter case aside. */
  function IncludesLang(searchLang: string, langs: seq<string>): (r: bool)
    ensures r <==> exists i :: 0 <= i < |langs| && IsPrefixIgnoringCase(searchLang, langs[i])
  {
    if langs == [] then false
    else
      var r := IsPrefixIgnoringCase(searchLang, langs[0]) || IncludesLang(searchLang, langs[1..]);
      assert forall i :: 1 <= i < |langs| ==> langs[i] == langs[1..][i - 1];
      r
  }

  /** `filterValues.some((klid) => info.klids.includes(klid))`. */
  function SomeKlid(values: seq<string>, klids: seq<string>): (r: bool)
    ensures r <==> exists i :: 0 <= i < |values| && values[i] in klids
  {
    if values == [] then false
    else
      var r := values[0] in klids || SomeKlid(values[1..], klids);
      assert forall i :: 1 <= i < |values| ==> values[i] == values[1..][i - 1];
      r
  }

  /** `filterValues.some((searchLang) => includesLang(searchLang, info.langs))`. */
  function SomeLang(values: seq<string>, langs: seq<string>): (r: bool)
    ensures r <==> exists i :: 0 <= i < |values| && IncludesLang(values[i], langs)
  {
    if values == [] then false
    else
      var r := IncludesLang(values[0], langs) || SomeLang(values[1..], langs);
      assert forall i :: 1 <= i < |values| ==> values[i] == values[1..][i - 1];
      r
  }

  /** The driver survives the three `continue` tests. */
  predicate Keeps(kind: FilterKind, values: seq<string>, driver: string, info: StoredDriver) {
    match kind
    case ByDriver => driver in values
    case ByKlid => SomeKlid(values, info.klids)
    case ByLanguage => SomeLang(values, info.langs)
  }

  /** The language filter keeps a driver exactly when some value is a
      prefix, letter case aside, of one of its languages. */
  lemma LanguageFilterIff(values: seq<string>, driver: string, info: StoredDriver)
    ensures Keeps(ByLanguage, values, driver, info) <==>
              exists i, j :: 0 <= i < |values| && 0 <= j < |info.langs| && IsPrefixIgnoringCase(values[i], info.langs[j])
  {
    if Keeps(ByLanguage, values, driver, info) {
      var i :| 0 <= i < |values| && IncludesLang(values[i], info.langs);
      var j :| 0 <= j < |info.langs| && IsPrefixIgnoringCase(values[i], info.langs[j]);
    }
  }

  /** Values read from the command line are lower case, so a driver name
      or a KLID with an upper-case letter is never matched. */
  lemma UpperCaseNeverMatches(values: seq<string>, driver: string, info: StoredDriver)
    requires forall v :: v in values ==> !HasUpper(v)
    ensures HasUpper(driver) ==> !Keeps(ByDriver, values, driver, info)
    ensures (forall k :: k in info.klids ==> HasUpper(k)) ==> !Keeps(ByKlid, values, driver, info)
  {
  }

  /** The language test ignores letter case on both sides: `en` matches
      `EN-gb` and `en-US`, but not `fr-FR`. */
  lemma LanguageExample(langs: seq<string>, info: StoredDriver)
    requires langs == ["fr-FR", "EN-gb"] && info.langs == langs
    ensures Keeps(ByLanguage, ["en"], "kbduk", info)
    ensures !IsPrefixIgnoringCase("en", "fr-FR")
  {
    assert ToLower("EN") == "en";
    assert "EN-gb"[..2] == "EN";
    assert IsPrefixIgnoringCase("en", langs[1]);
    assert ToLower("fr")[0] == 'f';
    assert "fr-FR"[..2] == "fr";
  }

  // ------------------------------------------------- the result

  /** `for (const klid of info.klids) filtered.klidDrivers[klid] = driver`. */
  function OwnKlids(owners: map<string, string>, klids: seq<string>, driver: string): map<string, string>
  {
    if klids == [] then owners
    else OwnKlids(owners, klids[..|klids| - 1], driver)[klids[|klids| - 1] := driver]
  }

  /** The writes for one kept driver. */
  function Keep(f: Filtered, driver: string, info: StoredDriver): Filtered {
    Filtered(OwnKlids(f.klidDrivers, info.klids, driver),
             f.vkToGlyphOverrides[driver := info.vk],
             f.scToVkOverrides[driver := info.sc])
  }

  /** The object printed for `store`, read in its entry order. */
  function FilterSpec(kind: FilterKind, values: seq<string>, store: seq<(string, StoredDriver)>): Filtered
  {
    if store == [] then EmptyFiltered
    else
      var f := FilterSpec(kind, values, store[..|store| - 1]);
      var (driver, info) := store[|store| - 1];
      if Keeps(kind, values, driver, info) then Keep(f, driver, info) else f
  }

  /** The script's loop over the stored entries. */
  method FilterOverrides(kind: FilterKind, values: seq<string>, store: seq<(string, StoredDriver)>) returns (filtered: Filtered)
    ensures filtered == FilterSpec(kind, values, store)
  {
    filtered := EmptyFiltered;
    var i := 0;
    while i < |store|
      invariant 0 <= i <= |store|
      invariant filtered == FilterSpec(kind, values, store[..i])
    {
      var (driver, info) := store[i];
      assert store[..i + 1][..i] == store[..i] && store[..i + 1][i] == (driver, info);
      if kind == ByDriver && driver !in values {
        i := i + 1;
        continue;
      } else if kind == ByKlid && !SomeKlid(values, info.klids) {
        i := i + 1;
        continue;
      } else if kind == ByLanguage && !SomeLang(values, info.langs) {
        i := i + 1;
        continue;
      }
      var klidDrivers := filtered.klidDrivers;
      var j := 0;
      while j < |info.klids|
        invariant 0 <= j <= |info.klids|
        invariant klidDrivers == OwnKlids(filtered.klidDrivers, info.klids[..j], driver)
      {
        assert info.klids[..j + 1][..j] == info.klids[..j];
        klidDrivers := klidDrivers[info.klids[j] := driver];
        j := j + 1;
      }
      assert info.klids[..j] == info.klids;
      filtered := Filtered(klidDrivers, filtered.vkToGlyphOverrides[driver := info.vk], filtered.scToVkOverrides[driver := info.sc]);
      i := i + 1;
    }
    assert store[..i] == store;
  }

  /** The whole script: the arguments checked in order, then the filter. */
  function OverridesSpec(kindArg: Option<string>, valuesArg: Option<string>, store: seq<(string, StoredDriver)>): Result<Filtered, FilterError>
  {
    match ParseFilterKind(kindArg)
    case Err(e) => Err(e)
    case Ok(kind) =>
      match FilterValues(valuesArg)
      case Err(e) => Err(e)
      case Ok(values) => Ok(FilterSpec(kind, values, store))
  }

  method GetWindowsVkOverrides(kindArg: Option<string>, valuesArg: Option<string>, store: seq<(string, StoredDriver)>)
    returns (r: Result<Filtered, FilterError>)
    ensures r == OverridesSpec(kindArg, valuesArg, store)
  {
    var kind := ParseFilterKind(kindArg);
    if kind.Err? {
      return Err(kind.error);
    }
    var values := FilterValues(valuesArg);
    if values.Err? {
      return Err(values.error);
    }
    var filtered := FilterOverrides(kind.value, values.value, store);
    return Ok(filtered);
  }

  // ------------------------------------------------- properties of the result

  /** A bad filter kind is reported whatever the value list. */
  lemma KindCheckedFirst(kindArg: Option<string>, valuesArg: Option<string>, store: seq<(string, StoredDriver)>)
    requires ParseFilterKind(kindArg).Err?
    ensures OverridesSpec(kindArg, valuesArg, store) == Err(ParseFilterKind(kindArg).error)
  {
  }

  /** A driver has tables in the result exactly when some entry for it is
      kept. */
  lemma {:induction false} KeptIff(kind: FilterKind, values: seq<string>, store: seq<(string, StoredDriver)>, driver: string)
    ensures driver in FilterSpec(kind, values, store).vkToGlyphOverrides <==>
              exists i :: 0 <= i < |store| && store[i].0 == driver && Keeps(kind, values, driver, store[i].1)
    ensures driver in FilterSpec(kind, values, store).scToVkOverrides <==>
              driver in FilterSpec(kind, values, store).vkToGlyphOverrides
  {
    if store != [] {
      var init := store[..|store| - 1];
      KeptIff(kind, values, init, driver);
      assert forall i :: 0 <= i < |init| ==> init[i] == store[i];
    }
  }

  /** Entry names are distinct, as the keys of an object are. */
  predicate DistinctDrivers(store: seq<(string, StoredDriver)>) {
    forall i, j :: 0 <= i < j < |store| ==> store[i].0 != store[j].0
  }

  /** A kept driver's two tables are copied unchanged. */
  lemma {:induction false} KeptTables(kind: FilterKind, values: seq<string>, store: seq<(string, StoredDriver)>, i: nat)
    requires DistinctDrivers(store) && i < |store| && Keeps(kind, values, store[i].0, store[i].1)
    ensures store[i].0 in FilterSpec(kind, values, store).vkToGlyphOverrides
    ensures FilterSpec(kind, values, store).vkToGlyphOverrides[store[i].0] == store[i].1.vk
    ensures store[i].0 in FilterSpec(kind, values, store).scToVkOverrides
    ensures FilterSpec(kind, values, store).scToVkOverrides[store[i].0] == store[i].1.sc
  {
    var init := store[..|store| - 1];
    if i < |init| {
      assert init[i] == store[i];
      KeptTables(kind, values, init, i);
    }
  }

  /** A KLID has an owner exactly when some kept driver lists it, and its
      owner is always a kept driver listing it. */
  lemma {:induction false} KlidOwners(kind: FilterKind, values: seq<string>, store: seq<(string, StoredDriver)>, klid: string)
    ensures klid in FilterSpec(kind, values, store).klidDrivers <==>
              exists i :: 0 <= i < |store| && Keeps(kind, values, store[i].0, store[i].1) && klid in store[i].1.klids
    ensures klid in FilterSpec(kind, values, store).klidDrivers ==>
              exists i :: 0 <= i < |store| && Keeps(kind, values, store[i].0, store[i].1) && klid in store[i].1.klids &&
                store[i].0 == FilterSpec(kind, values, store).klidDrivers[klid]
  {
    if store != [] {
      var init := store[..|store| - 1];
      var (driver, info) := store[|store| - 1];
      KlidOwners(kind, values, init, klid);
      assert forall i :: 0 <= i < |init| ==> init[i] == store[i];
      if Keeps(kind, values, driver, info) {
        OwnKlidsAt(FilterSpec(kind, values, init).klidDrivers, info.klids, driver, klid);
      }
    }
  }

  /** The inner loop gives the driver every KLID it lists and leaves the
      others as they were. */
  lemma {:induction false} OwnKlidsAt(owners: map<string, string>, klids: seq<string>, driver: string, klid: string)
    ensures klid in klids ==> klid in OwnKlids(owners, klids, driver) && OwnKlids(owners, klids, driver)[klid] == driver
    ensures klid !in klids ==> (klid in OwnKlids(owners, klids, driver) <==> klid in owners)
    ensures klid !in klids && klid in owners ==> OwnKlids(owners, klids, driver)[klid] == owners[klid]
  {
    if klids != [] {
      var init := klids[..|klids| - 1];
      assert klids == init + [klids[|klids| - 1]];
      OwnKlidsAt(owners, init, driver, klid);
    }
  }

  /** A KLID listed by several kept drivers goes to the last of them. */
  lemma {:induction false} LastKeptOwns(kind: FilterKind, values: seq<string>, store: seq<(string, StoredDriver)>, i: nat, klid: string)
    requires i < |store| && Keeps(kind, values, store[i].0, store[i].1) && klid in store[i].1.klids
    requires forall j :: i < j < |store| && Keeps(kind, values, store[j].0, store[j].1) ==> klid !in store[j].1.klids
    ensures klid in FilterSpec(kind, values, store).klidDrivers
    ensures FilterSpec(kind, values, store).klidDrivers[klid] == store[i].0
  {
    var init := store[..|store| - 1];
    var (driver, info) := store[|store| - 1];
    if i < |init| {
      assert init[i] == store[i];
      assert forall j :: i < j < |init| ==> init[j] == store[j];
      LastKeptOwns(kind, values, init, i, klid);
      if Keeps(kind, values, driver, info) {
        OwnKlidsAt(FilterSpec(kind, values, init).klidDrivers, info.klids, driver, klid);
      }
    } else {
      OwnKlidsAt(FilterSpec(kind, values, init).klidDrivers, info.klids, driver, klid);
    }
  }
}
