/** What `getVirtualKeyMappings` in scripts/process-windows-layouts.mjs
    computes from the `PK` key elements of one driver's mapping document:
    the complete scan-code table and the glyph table reduced to the entries
    that differ from a baseline. The loop itself is
    `LayoutProcessor.GetVirtualKeyMappings`; this module is its specification
    and the properties of that specification. */
module KeyMappings {
  import opened Wrappers
  import opened JsText
  import opened Tables
  import opened VkCodes

  /** A nested `result` element: its optional `with` (modifier state)
      attribute and its optional `text` attribute. */
  datatype KeyResult = KeyResult(with: Option<string>, text: Option<string>)

  /** A `PK` element: its optional `vk` and `sc` attributes and the
      `result` elements below it, in document order. */
  datatype Key = Key(vk: Option<string>, sc: Option<string>, results: seq<KeyResult>)

  /** The `{vk, sc}` pair. The glyph table's keys are the virtual-key
      numbers (the source writes them as the property names `${vkNum}`,
      which is one name per number). */
  datatype Mappings = Mappings(vk: map<JsNum, string>, sc: map<string, JsNum>)

  /** The three ways the call throws: one of the two `assert`s, or a
      `toLocaleUpperCase` that rejects the language it is given. */
  datatype MappingError = MissingVk | MissingScanCode | BadLocale(lang: Option<string>)

  /** `text.toLocaleUpperCase(lang)`: the runtime's locale-aware upper-casing,
      `None` when it throws for the language given (`None` for `lang` is the
      `undefined` passed for a driver without metadata). */
  type CaseMapping = (string, Option<string>) -> Option<string>

  const EmptyMappings := Mappings(map[], map[])

  /** An attribute value the `assert` and the `if (!value)` accept: present
      and not the empty string. */
  predicate Present(a: Option<string>) {
    a.Some? && a.value != ""
  }

  /** The `result:not([with])` elements: those without a `with` attribute. */
  function Unconditional(results: seq<KeyResult>): (u: seq<KeyResult>)
    ensures forall r :: r in u <==> r in results && r.with.None?
  {
    if results == [] then []
    else if results[0].with.None? then [results[0]] + Unconditional(results[1..])
    else Unconditional(results[1..])
  }

  /** Each element without a `with` attribute is kept as often as it occurs,
      so `|Unconditional(results)|` is the `values.length` the glyph test
      looks at, duplicates included. */
  lemma {:induction false} UnconditionalCount(results: seq<KeyResult>)
    ensures forall r :: multiset(Unconditional(results))[r] == if r.with.None? then multiset(results)[r] else 0
  {
    if results != [] {
      assert results == [results[0]] + results[1..];
      UnconditionalCount(results[1..]);
    }
  }

  /** The error a key raises, if any. */
  function KeyError(keyCodes: map<string, VkEntry>, lang: Option<string>, upper: CaseMapping, k: Key): Option<MappingError>
  {
    if !Present(k.vk) then Some(MissingVk)
    else if !Present(k.sc) then Some(MissingScanCode)
    else if k.vk.value !in keyCodes then None
    else
      var u := Unconditional(k.results);
      if |u| != 1 || !Present(u[0].text) then None
      else if upper(u[0].text.value, lang).None? then Some(BadLocale(lang))
      else None
  }

  /** The `mappings.sc[scanCode] = vkNum` write a key makes, if any. */
  function ScanWrite(keyCodes: map<string, VkEntry>, k: Key): Option<(string, JsNum)>
  {
    if Present(k.vk) && Present(k.sc) && k.vk.value in keyCodes then
      Some((k.sc.value, keyCodes[k.vk.value].number))
    else None
  }

  /** The glyph candidate of a key: its number and its only unconditional
      result's text, upper-cased. */
  function Glyph(keyCodes: map<string, VkEntry>, lang: Option<string>, upper: CaseMapping, k: Key): Option<(JsNum, string)>
  {
    if Present(k.vk) && Present(k.sc) && k.vk.value in keyCodes then
      var u := Unconditional(k.results);
      if |u| == 1 && Present(u[0].text) then
        match upper(u[0].text.value, lang)
        case None => None
        case Some(g) => Some((keyCodes[k.vk.value].number, g))
      else None
    else None
  }

  /** The candidate is not what the baseline holds at that number. */
  predicate Differs(baseline: map<JsNum, string>, p: (JsNum, string)) {
    p.0 !in baseline || baseline[p.0] != p.1
  }

  /** The `mappings.vk[vkNum] = value` write a key makes, if any. */
  function GlyphWrite(keyCodes: map<string, VkEntry>, baseline: map<JsNum, string>, lang: Option<string>,
                      upper: CaseMapping, k: Key): Option<(JsNum, string)>
  {
    match Glyph(keyCodes, lang, upper, k)
    case None => None
    case Some(p) => if Differs(baseline, p) then Some(p) else None
  }

  function ScanWriter(keyCodes: map<string, VkEntry>): Key -> Option<(string, JsNum)> {
    k => ScanWrite(keyCodes, k)
  }

  function GlyphOf(keyCodes: map<string, VkEntry>, lang: Option<string>, upper: CaseMapping): Key -> Option<(JsNum, string)> {
    k => Glyph(keyCodes, lang, upper, k)
  }

  function GlyphWriter(keyCodes: map<string, VkEntry>, baseline: map<JsNum, string>, lang: Option<string>,
                       upper: CaseMapping): Key -> Option<(JsNum, string)> {
    k => GlyphWrite(keyCodes, baseline, lang, upper, k)
  }

  /** The error of the first key that raises one. */
  function FirstKeyError(keyCodes: map<string, VkEntry>, lang: Option<string>, upper: CaseMapping, keys: seq<Key>): Option<MappingError>
  {
    if keys == [] then None
    else
      match FirstKeyError(keyCodes, lang, upper, keys[..|keys| - 1])
      case Some(e) => Some(e)
      case None => KeyError(keyCodes, lang, upper, keys[|keys| - 1])
  }

  /** The scan-code table the loop builds from `keys`: each key's write
      applied in document order. */
  function ScanTable(keyCodes: map<string, VkEntry>, keys: seq<Key>): map<string, JsNum> {
    if keys == [] then map[]
    else Put(ScanTable(keyCodes, keys[..|keys| - 1]), ScanWrite(keyCodes, keys[|keys| - 1]))
  }

  /** The glyph table the loop builds from `keys` against `baseline`. */
  function GlyphTable(keyCodes: map<string, VkEntry>, baseline: map<JsNum, string>, lang: Option<string>,
                      upper: CaseMapping, keys: seq<Key>): map<JsNum, string> {
    if keys == [] then map[]
    else Put(GlyphTable(keyCodes, baseline, lang, upper, keys[..|keys| - 1]), GlyphWrite(keyCodes, baseline, lang, upper, keys[|keys| - 1]))
  }

  /** The driver's full glyph table: every candidate, last one winning. */
  function FullGlyphTable(keyCodes: map<string, VkEntry>, lang: Option<string>, upper: CaseMapping, keys: seq<Key>): map<JsNum, string> {
    if keys == [] then map[]
    else Put(FullGlyphTable(keyCodes, lang, upper, keys[..|keys| - 1]), Glyph(keyCodes, lang, upper, keys[|keys| - 1]))
  }

  /** Each table is the dictionary its sequence of writes leaves behind. */
  lemma {:induction false} ScanTableWrites(keyCodes: map<string, VkEntry>, keys: seq<Key>)
    ensures ScanTable(keyCodes, keys) == LastWins(Emitted(keys, ScanWriter(keyCodes)))
  {
    if keys != [] {
      ScanTableWrites(keyCodes, keys[..|keys| - 1]);
      EmittedStep(keys, ScanWriter(keyCodes));
    }
  }

  lemma {:induction false} GlyphTableWrites(keyCodes: map<string, VkEntry>, baseline: map<JsNum, string>, lang: Option<string>,
                                            upper: CaseMapping, keys: seq<Key>)
    ensures GlyphTable(keyCodes, baseline, lang, upper, keys) == LastWins(Emitted(keys, GlyphWriter(keyCodes, baseline, lang, upper)))
  {
    if keys != [] {
      GlyphTableWrites(keyCodes, baseline, lang, upper, keys[..|keys| - 1]);
      EmittedStep(keys, GlyphWriter(keyCodes, baseline, lang, upper));
    }
  }

  lemma {:induction false} FullGlyphTableWrites(keyCodes: map<string, VkEntry>, lang: Option<string>, upper: CaseMapping, keys: seq<Key>)
    ensures FullGlyphTable(keyCodes, lang, upper, keys) == LastWins(Emitted(keys, GlyphOf(keyCodes, lang, upper)))
  {
    if keys != [] {
      FullGlyphTableWrites(keyCodes, lang, upper, keys[..|keys| - 1]);
      EmittedStep(keys, GlyphOf(keyCodes, lang, upper));
    }
  }

  /** `getVirtualKeyMappings(keys, lang)` against the baseline glyph table. */
  function VirtualKeyMappings(keyCodes: map<string, VkEntry>, baseline: map<JsNum, string>, keys: seq<Key>,
                       lang: Option<string>, upper: CaseMapping): Result<Mappings, MappingError>
  {
    match FirstKeyError(keyCodes, lang, upper, keys)
    case Some(e) => Err(e)
    case None => Ok(Mappings(GlyphTable(keyCodes, baseline, lang, upper, keys), ScanTable(keyCodes, keys)))
  }

  // ------------------------------------------------- errors

  /** An error found in a prefix is the error of the whole sequence. */
  lemma {:induction false} FirstKeyErrorExtend(keyCodes: map<string, VkEntry>, lang: Option<string>, upper: CaseMapping,
                                               keys: seq<Key>, j: nat)
    requires j <= |keys|
    requires FirstKeyError(keyCodes, lang, upper, keys[..j]).Some?
    ensures FirstKeyError(keyCodes, lang, upper, keys) == FirstKeyError(keyCodes, lang, upper, keys[..j])
  {
    if j < |keys| {
      assert keys[..|keys| - 1][..j] == keys[..j];
      FirstKeyErrorExtend(keyCodes, lang, upper, keys[..|keys| - 1], j);
    } else {
      assert keys[..j] == keys;
    }
  }

  /** The call fails exactly when some key raises an error, and then with
      the error of the first such key. */
  lemma {:induction false} FirstKeyErrorAt(keyCodes: map<string, VkEntry>, lang: Option<string>, upper: CaseMapping,
                                           keys: seq<Key>, e: MappingError)
    ensures FirstKeyError(keyCodes, lang, upper, keys) == Some(e) <==>
              exists i :: 0 <= i < |keys| && KeyError(keyCodes, lang, upper, keys[i]) == Some(e) &&
                forall j :: 0 <= j < i ==> KeyError(keyCodes, lang, upper, keys[j]).None?
  {
    if keys != [] {
      var init := keys[..|keys| - 1];
      FirstKeyErrorAt(keyCodes, lang, upper, init, e);
      FirstKeyErrorNone(keyCodes, lang, upper, init);
      if FirstKeyError(keyCodes, lang, upper, keys) == Some(e) {
        if FirstKeyError(keyCodes, lang, upper, init) == Some(e) {
          var i :| 0 <= i < |init| && KeyError(keyCodes, lang, upper, init[i]) == Some(e) &&
                   forall j :: 0 <= j < i ==> KeyError(keyCodes, lang, upper, init[j]).None?;
          assert keys[i] == init[i];
          assert forall j :: 0 <= j < i ==> keys[j] == init[j];
        } else {
          assert forall j :: 0 <= j < |init| ==> keys[j] == init[j];
        }
      }
      if exists i :: 0 <= i < |keys| && KeyError(keyCodes, lang, upper, keys[i]) == Some(e) &&
                forall j :: 0 <= j < i ==> KeyError(keyCodes, lang, upper, keys[j]).None? {
        var i :| 0 <= i < |keys| && KeyError(keyCodes, lang, upper, keys[i]) == Some(e) &&
                 forall j :: 0 <= j < i ==> KeyError(keyCodes, lang, upper, keys[j]).None?;
        if i < |init| {
          assert init[i] == keys[i];
          assert forall j :: 0 <= j < i ==> init[j] == keys[j];
        } else {
          assert forall j :: 0 <= j < |init| ==> init[j] == keys[j];
        }
      }
    }
  }

  /** No error exactly when no key raises one. */
  lemma {:induction false} FirstKeyErrorNone(keyCodes: map<string, VkEntry>, lang: Option<string>, upper: CaseMapping,
                                             keys: seq<Key>)
    ensures FirstKeyError(keyCodes, lang, upper, keys).None? <==>
              forall i :: 0 <= i < |keys| ==> KeyError(keyCodes, lang, upper, keys[i]).None?
  {
    if keys != [] {
      var init := keys[..|keys| - 1];
      FirstKeyErrorNone(keyCodes, lang, upper, init);
      assert forall i :: 0 <= i < |init| ==> init[i] == keys[i];
    }
  }

  /** A key without a non-empty `vk` attribute, or with one but without a
      non-empty `sc` attribute, makes the whole call fail: no mappings are
      returned for the document. */
  lemma MissingAttributeFails(keyCodes: map<string, VkEntry>, baseline: map<JsNum, string>, keys: seq<Key>,
                              lang: Option<string>, upper: CaseMapping, i: nat)
    requires i < |keys| && (!Present(keys[i].vk) || !Present(keys[i].sc))
    ensures VirtualKeyMappings(keyCodes, baseline, keys, lang, upper).Err?
  {
    FirstKeyErrorNone(keyCodes, lang, upper, keys);
  }

  /** The call succeeds exactly when every key carries both attributes and
      every glyph candidate's upper-casing accepts the language. */
  lemma SucceedsIff(keyCodes: map<string, VkEntry>, baseline: map<JsNum, string>, keys: seq<Key>,
                    lang: Option<string>, upper: CaseMapping)
    ensures VirtualKeyMappings(keyCodes, baseline, keys, lang, upper).Ok? <==>
              forall i :: 0 <= i < |keys| ==>
                Present(keys[i].vk) && Present(keys[i].sc) &&
                (keys[i].vk.value in keyCodes && |Unconditional(keys[i].results)| == 1 &&
                 Present(Unconditional(keys[i].results)[0].text) ==>
                   upper(Unconditional(keys[i].results)[0].text.value, lang).Some?)
  {
    FirstKeyErrorNone(keyCodes, lang, upper, keys);
  }

  // ------------------------------------------------- the scan-code table

  /** A scan code is in the table exactly when some key with a resolvable
      `vk` name carries it, whatever that key's glyph. */
  lemma ScanTableKeys(keyCodes: map<string, VkEntry>, keys: seq<Key>, scanCode: string)
    ensures scanCode in ScanTable(keyCodes, keys) <==>
              exists i :: 0 <= i < |keys| && Present(keys[i].vk) && Present(keys[i].sc) &&
                keys[i].vk.value in keyCodes && keys[i].sc.value == scanCode
  {
    ScanTableWrites(keyCodes, keys);
    EmittedKeys(keys, ScanWriter(keyCodes), scanCode);
  }

  /** The number under a scan code is the one of the last key carrying it. */
  lemma ScanTableLast(keyCodes: map<string, VkEntry>, keys: seq<Key>, i: nat)
    requires i < |keys| && Present(keys[i].vk) && Present(keys[i].sc) && keys[i].vk.value in keyCodes
    requires forall j :: i < j < |keys| && Present(keys[j].vk) && Present(keys[j].sc) && keys[j].vk.value in keyCodes ==>
               keys[j].sc.value != keys[i].sc.value
    ensures keys[i].sc.value in ScanTable(keyCodes, keys)
    ensures ScanTable(keyCodes, keys)[keys[i].sc.value] == keyCodes[keys[i].vk.value].number
  {
    ScanTableWrites(keyCodes, keys);
    EmittedLast(keys, ScanWriter(keyCodes), i);
  }

  // ------------------------------------------------- keys that contribute nothing

  /** A key with both attributes whose `vk` name is not in the reference
      table adds nothing: the result is the one without that key. */
  lemma UnresolvedKeyAddsNothing(keyCodes: map<string, VkEntry>, baseline: map<JsNum, string>, a: seq<Key>, k: Key,
                                 b: seq<Key>, lang: Option<string>, upper: CaseMapping)
    requires Present(k.vk) && Present(k.sc) && k.vk.value !in keyCodes
    ensures VirtualKeyMappings(keyCodes, baseline, a + [k] + b, lang, upper) == VirtualKeyMappings(keyCodes, baseline, a + b, lang, upper)
  {
    ScanTableWrites(keyCodes, a + [k] + b);
    ScanTableWrites(keyCodes, a + b);
    EmittedDrop(a, k, b, ScanWriter(keyCodes));
    GlyphTableWrites(keyCodes, baseline, lang, upper, a + [k] + b);
    GlyphTableWrites(keyCodes, baseline, lang, upper, a + b);
    EmittedDrop(a, k, b, GlyphWriter(keyCodes, baseline, lang, upper));
    FirstKeyErrorDrop(keyCodes, lang, upper, a, k, b);
  }

  /** A key with zero or several unconditional results writes no glyph: the
      glyph table is the one without that key. */
  lemma AmbiguousKeyNoGlyph(keyCodes: map<string, VkEntry>, baseline: map<JsNum, string>, a: seq<Key>, k: Key,
                            b: seq<Key>, lang: Option<string>, upper: CaseMapping)
    requires |Unconditional(k.results)| != 1
    ensures GlyphTable(keyCodes, baseline, lang, upper, a + [k] + b) == GlyphTable(keyCodes, baseline, lang, upper, a + b)
  {
    GlyphTableWrites(keyCodes, baseline, lang, upper, a + [k] + b);
    GlyphTableWrites(keyCodes, baseline, lang, upper, a + b);
    EmittedDrop(a, k, b, GlyphWriter(keyCodes, baseline, lang, upper));
  }

  lemma EmittedDrop<K, V>(a: seq<Key>, k: Key, b: seq<Key>, write: Key -> Option<(K, V)>)
    requires write(k).None?
    ensures Emitted(a + [k] + b, write) == Emitted(a + b, write)
  {
    EmittedAppend(a + [k], b, write);
    EmittedAppend(a, [k], write);
    EmittedAppend(a, b, write);
    assert [k][..0] == [];
  }

  lemma {:induction false} FirstKeyErrorDrop(keyCodes: map<string, VkEntry>, lang: Option<string>, upper: CaseMapping,
                                            a: seq<Key>, k: Key, b: seq<Key>)
    requires KeyError(keyCodes, lang, upper, k).None?
    ensures FirstKeyError(keyCodes, lang, upper, a + [k] + b) == FirstKeyError(keyCodes, lang, upper, a + b)
  {
    if b == [] {
      assert (a + [k] + b)[..|a|] == a;
      assert a + b == a;
    } else {
      var b' := b[..|b| - 1];
      assert (a + [k] + b)[..|a + [k] + b| - 1] == a + [k] + b';
      assert (a + b)[..|a + b| - 1] == a + b';
      FirstKeyErrorDrop(keyCodes, lang, upper, a, k, b');
    }
  }

  // ------------------------------------------------- the baseline diff

  /** The candidates that differ from the baseline, in order. */
  function Differing(baseline: map<JsNum, string>, ps: seq<(JsNum, string)>): (d: seq<(JsNum, string)>)
  {
    if ps == [] then []
    else if Differs(baseline, ps[|ps| - 1]) then Differing(baseline, ps[..|ps| - 1]) + [ps[|ps| - 1]]
    else Differing(baseline, ps[..|ps| - 1])
  }

  /** The writes to `vk` are the candidates that differ from the baseline. */
  lemma {:induction false} GlyphWritesAreDiffering(keyCodes: map<string, VkEntry>, baseline: map<JsNum, string>,
                                                   lang: Option<string>, upper: CaseMapping, keys: seq<Key>)
    ensures Emitted(keys, GlyphWriter(keyCodes, baseline, lang, upper)) ==
              Differing(baseline, Emitted(keys, GlyphOf(keyCodes, lang, upper)))
  {
    if keys != [] {
      GlyphWritesAreDiffering(keyCodes, baseline, lang, upper, keys[..|keys| - 1]);
      var c := Emitted(keys[..|keys| - 1], GlyphOf(keyCodes, lang, upper));
      match Glyph(keyCodes, lang, upper, keys[|keys| - 1])
      case None =>
      case Some(p) =>
        assert (c + [p])[..|c|] == c;
    }
  }

  /** No entry of the written glyph table equals the baseline's value at
      its number. */
  lemma GlyphTableDiffers(keyCodes: map<string, VkEntry>, baseline: map<JsNum, string>, lang: Option<string>,
                          upper: CaseMapping, keys: seq<Key>, n: JsNum)
    requires n in GlyphTable(keyCodes, baseline, lang, upper, keys)
    ensures Differs(baseline, (n, GlyphTable(keyCodes, baseline, lang, upper, keys)[n]))
  {
    var ws := Emitted(keys, GlyphWriter(keyCodes, baseline, lang, upper));
    GlyphTableWrites(keyCodes, baseline, lang, upper, keys);
    LastWinsSource(ws, n);
    var i :| 0 <= i < |ws| && ws[i] == (n, LastWins(ws)[n]) && LastWriteAt(ws, i);
    GlyphWritesAreDiffering(keyCodes, baseline, lang, upper, keys);
    DifferingDiffers(baseline, Emitted(keys, GlyphOf(keyCodes, lang, upper)), i);
  }

  lemma {:induction false} DifferingDiffers(baseline: map<JsNum, string>, ps: seq<(JsNum, string)>, i: nat)
    requires i < |Differing(baseline, ps)|
    ensures Differs(baseline, Differing(baseline, ps)[i])
  {
    var d := Differing(baseline, ps[..|ps| - 1]);
    if i < |d| {
      DifferingDiffers(baseline, ps[..|ps| - 1], i);
    }
  }

  /** A number is in the written glyph table exactly when some key's
      candidate for it differs from the baseline. */
  lemma GlyphTableKeys(keyCodes: map<string, VkEntry>, baseline: map<JsNum, string>, lang: Option<string>,
                       upper: CaseMapping, keys: seq<Key>, n: JsNum)
    ensures n in GlyphTable(keyCodes, baseline, lang, upper, keys) <==>
              exists i :: 0 <= i < |keys| && Glyph(keyCodes, lang, upper, keys[i]).Some? &&
                Glyph(keyCodes, lang, upper, keys[i]).value.0 == n &&
                Differs(baseline, Glyph(keyCodes, lang, upper, keys[i]).value)
  {
    GlyphTableWrites(keyCodes, baseline, lang, upper, keys);
    EmittedKeys(keys, GlyphWriter(keyCodes, baseline, lang, upper), n);
  }

  /** A key whose candidate equals the baseline leaves the glyph table as it
      was: in particular it never removes an earlier differing entry. */
  lemma EqualCandidateKeepsTable(keyCodes: map<string, VkEntry>, baseline: map<JsNum, string>, lang: Option<string>,
                                 upper: CaseMapping, keys: seq<Key>, k: Key)
    requires Glyph(keyCodes, lang, upper, k).Some? && !Differs(baseline, Glyph(keyCodes, lang, upper, k).value)
    ensures GlyphTable(keyCodes, baseline, lang, upper, keys + [k]) == GlyphTable(keyCodes, baseline, lang, upper, keys)
  {
    assert (keys + [k])[..|keys|] == keys;
  }

  /** Against the empty baseline every candidate is recorded: the written
      glyph table is the driver's full one. */
  lemma EmptyBaselineRecordsAll(keyCodes: map<string, VkEntry>, lang: Option<string>, upper: CaseMapping, keys: seq<Key>)
    ensures GlyphTable(keyCodes, map[], lang, upper, keys) == FullGlyphTable(keyCodes, lang, upper, keys)
  {
    GlyphTableWrites(keyCodes, map[], lang, upper, keys);
    FullGlyphTableWrites(keyCodes, lang, upper, keys);
    GlyphWritesAreDiffering(keyCodes, map[], lang, upper, keys);
    DifferingEmpty(Emitted(keys, GlyphOf(keyCodes, lang, upper)));
  }

  lemma {:induction false} DifferingEmpty(ps: seq<(JsNum, string)>)
    ensures Differing(map[], ps) == ps
  {
    if ps != [] {
      DifferingEmpty(ps[..|ps| - 1]);
      assert ps[..|ps| - 1] + [ps[|ps| - 1]] == ps;
    }
  }

  /** All candidates for one number agree. */
  predicate Consistent(ps: seq<(JsNum, string)>) {
    forall i, j :: 0 <= i < |ps| && 0 <= j < |ps| && ps[i].0 == ps[j].0 ==> ps[i].1 == ps[j].1
  }

  /** Overlaying the overrides onto the baseline reproduces the driver's full
      glyph table at every number the driver has a glyph for, provided the
      driver's candidates for each number agree. */
  lemma {:induction false} DiffRoundTrip(baseline: map<JsNum, string>, ps: seq<(JsNum, string)>, n: JsNum)
    requires Consistent(ps)
    requires n in LastWins(ps)
    ensures n in baseline + LastWins(Differing(baseline, ps))
    ensures (baseline + LastWins(Differing(baseline, ps)))[n] == LastWins(ps)[n]
  {
    var init := ps[..|ps| - 1];
    var p := ps[|ps| - 1];
    assert Consistent(init) by {
      forall i, j | 0 <= i < |init| && 0 <= j < |init| && init[i].0 == init[j].0 ensures init[i].1 == init[j].1 {
        assert init[i] == ps[i] && init[j] == ps[j];
      }
    }
    if p.0 == n {
      if !Differs(baseline, p) && n in LastWins(Differing(baseline, init)) {
        // an earlier differing candidate for n would disagree with p
        var d := Differing(baseline, init);
        LastWinsSource(d, n);
        var i :| 0 <= i < |d| && d[i] == (n, LastWins(d)[n]) && LastWriteAt(d, i);
        DifferingDiffers(baseline, init, i);
        DifferingFrom(baseline, init, i);
        assert false;
      }
    } else {
      DiffRoundTrip(baseline, init, n);
    }
  }

  /** Every differing candidate comes from the candidates. */
  lemma {:induction false} DifferingFrom(baseline: map<JsNum, string>, ps: seq<(JsNum, string)>, i: nat)
    requires i < |Differing(baseline, ps)|
    ensures exists j :: 0 <= j < |ps| && ps[j] == Differing(baseline, ps)[i]
  {
    var init := ps[..|ps| - 1];
    var d := Differing(baseline, init);
    if i < |d| {
      DifferingFrom(baseline, init, i);
      var j :| 0 <= j < |init| && init[j] == d[i];
      assert ps[j] == init[j];
    } else {
      assert ps[|ps| - 1] == Differing(baseline, ps)[i];
    }
  }

  /** The overrides only name numbers the driver has a glyph for. */
  lemma DiffKeysInTable(baseline: map<JsNum, string>, ps: seq<(JsNum, string)>, n: JsNum)
    requires n in LastWins(Differing(baseline, ps))
    ensures n in LastWins(ps)
  {
    var d := Differing(baseline, ps);
    LastWinsSource(d, n);
    var i :| 0 <= i < |d| && d[i] == (n, LastWins(d)[n]) && LastWriteAt(d, i);
    DifferingFrom(baseline, ps, i);
    var j :| 0 <= j < |ps| && ps[j] == d[i];
    LastWinsKeys(ps, n);
  }

  /** Diffing consistent candidates against the table they produce yields
      no overrides. */
  lemma SelfDiffEmpty(ps: seq<(JsNum, string)>)
    requires Consistent(ps)
    ensures LastWins(Differing(LastWins(ps), ps)) == map[]
  {
    var b := LastWins(ps);
    var d := Differing(b, ps);
    forall n | n in LastWins(d) ensures false {
      LastWinsSource(d, n);
      var i :| 0 <= i < |d| && d[i] == (n, LastWins(d)[n]) && LastWriteAt(d, i);
      DifferingDiffers(b, ps, i);
      DifferingFrom(b, ps, i);
      var j :| 0 <= j < |ps| && ps[j] == d[i];
      LastWinsKeys(ps, n);
      LastWinsSource(ps, n);
    }
  }

  /** The round trip for a driver's keys: overlaying its written glyph
      table onto the baseline gives its full glyph table at every number it
      has a glyph for, when its candidates for each number agree; and the
      written table names no other number. */
  lemma GlyphRoundTrip(keyCodes: map<string, VkEntry>, baseline: map<JsNum, string>, lang: Option<string>,
                       upper: CaseMapping, keys: seq<Key>, n: JsNum)
    requires Consistent(Emitted(keys, GlyphOf(keyCodes, lang, upper)))
    ensures n in GlyphTable(keyCodes, baseline, lang, upper, keys) ==> n in FullGlyphTable(keyCodes, lang, upper, keys)
    ensures n in FullGlyphTable(keyCodes, lang, upper, keys) ==>
              n in baseline + GlyphTable(keyCodes, baseline, lang, upper, keys) &&
              (baseline + GlyphTable(keyCodes, baseline, lang, upper, keys))[n] == FullGlyphTable(keyCodes, lang, upper, keys)[n]
  {
    var ps := Emitted(keys, GlyphOf(keyCodes, lang, upper));
    GlyphTableWrites(keyCodes, baseline, lang, upper, keys);
    FullGlyphTableWrites(keyCodes, lang, upper, keys);
    GlyphWritesAreDiffering(keyCodes, baseline, lang, upper, keys);
    if n in LastWins(Differing(baseline, ps)) {
      DiffKeysInTable(baseline, ps, n);
    }
    if n in LastWins(ps) {
      DiffRoundTrip(baseline, ps, n);
    }
  }

  /** A driver diffed against its own full glyph table, computed with the
      same language, has no overrides when its candidates agree. */
  lemma GlyphSelfDiffEmpty(keyCodes: map<string, VkEntry>, lang: Option<string>, upper: CaseMapping, keys: seq<Key>)
    requires Consistent(Emitted(keys, GlyphOf(keyCodes, lang, upper)))
    ensures GlyphTable(keyCodes, FullGlyphTable(keyCodes, lang, upper, keys), lang, upper, keys) == map[]
  {
    var ps := Emitted(keys, GlyphOf(keyCodes, lang, upper));
    FullGlyphTableWrites(keyCodes, lang, upper, keys);
    GlyphTableWrites(keyCodes, LastWins(ps), lang, upper, keys);
    GlyphWritesAreDiffering(keyCodes, LastWins(ps), lang, upper, keys);
    SelfDiffEmpty(ps);
  }

  /** Without agreement the round trip and the empty self-diff both fail:
      a driver whose keys give number 65 first `X` and then `A` has the
      full table `{65: A}`, yet against that very table its overrides are
      `{65: X}`. */
  lemma InconsistentSelfDiff(ps: seq<(JsNum, string)>)
    requires ps == [(Num(65), "X"), (Num(65), "A")]
    ensures LastWins(ps) == map[Num(65) := "A"]
    ensures LastWins(Differing(LastWins(ps), ps)) == map[Num(65) := "X"]
  {
    var x, y := (Num(65), "X"), (Num(65), "A");
    assert ps[..1] == [x];
    assert [x][..0] == [];
    assert LastWins([x]) == map[Num(65) := "X"];
    var b := LastWins(ps);
    assert b == map[Num(65) := "A"];
    assert Differs(b, x) && !Differs(b, y);
    assert Differing(b, [x]) == [x];
    assert Differing(b, ps) == [x];
  }

  /** The worked example: baseline `{65: A, 66: B}` and a driver whose only
      candidate is `{65: Я}` give the overrides `{65: Я}`; number 66, for
      which the driver has no candidate, gets no override. */
  lemma OverrideExample(baseline: map<JsNum, string>, ps: seq<(JsNum, string)>)
    requires baseline == map[Num(65) := "A", Num(66) := "B"]
    requires ps == [(Num(65), "Я")]
    ensures LastWins(Differing(baseline, ps)) == map[Num(65) := "Я"]
  {
    assert ps[..0] == [];
    assert "Я" != "A";
    assert Differs(baseline, ps[0]);
    assert Differing(baseline, ps) == ps;
  }
}
