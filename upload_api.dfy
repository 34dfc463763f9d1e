/** The analysis step of the upload endpoint (pages/api/upload.ts): find the
    app manifest among the entries of the uploaded archive, decode it, and
    evaluate every rule of the catalogue against it. Transport, storage,
    ZIP decoding, the plist decoder and reading the catalogue file are
    outside this module: the archive arrives as its list of entries, the
    decoder as a function parameter and the catalogue as a list of rules. */
module UploadApi {

  datatype Option<T> = None | Some(value: T)

  newtype byte = x: int | 0 <= x < 256

  /** One entry of the uploaded archive, in the order the archive lists it. */
  datatype Entry = Entry(name: string, data: seq<byte>)

  /** A value decoded from a property list. */
  datatype Value =
    | PString(s: string)
    | PInteger(i: int)
    | PReal(r: real)
    | PBool(b: bool)
    | PDate(iso: string)
    | PData(bytes: seq<byte>)
    | PArray(items: seq<Value>)
    | PDict(fields: map<string, Value>)

  /** The decoded manifest: the top-level dictionary of the property list. */
  type Manifest = map<string, Value>

  /** A catalogue rule. `section` is None when the record has no section. */
  datatype Rule = Rule(id: string, key: string, description: string, severity: string, section: Option<string>)

  /** The record the endpoint builds for one rule. */
  datatype EvalResult = EvalResult(id: string, description: string, key: string, passed: bool, severity: string, section: string)

  /** What one request ends in: no manifest entry (status 400), any
      exception caught at pages/api/upload.ts:79 (status 500), or one
      result per rule (status 200). */
  datatype Outcome = NotFound | Failed | Results(results: seq<EvalResult>)

  const ManifestSuffix := "Info.plist"
  const DefaultSection := "Other"

  /** JavaScript's `s.endsWith(suffix)`: an exact, case-sensitive match of
      the last |suffix| characters. */
  predicate EndsWith(s: string, suffix: string) {
    |suffix| <= |s| && s[|s| - |suffix|..] == suffix
  }

  /** An entry is the manifest when its whole name ends with "Info.plist". */
  predicate IsManifestName(name: string) {
    EndsWith(name, ManifestSuffix)
  }

  /** `endsWith` holds exactly when the string is some prefix followed by
      the suffix, so a manifest name is any path followed by "Info.plist". */
  lemma EndsWithIsSuffix(s: string, suffix: string)
    ensures EndsWith(s, suffix) <==> exists p :: s == p + suffix
    ensures IsManifestName(s) <==> exists p :: s == p + ManifestSuffix
  {
    if EndsWith(s, suffix) {
      assert s == s[..|s| - |suffix|] + suffix;
    }
    if IsManifestName(s) {
      assert s == s[..|s| - |ManifestSuffix|] + ManifestSuffix;
    }
  }

  /** `entries.find(entry => entry.entryName.endsWith('Info.plist'))`, as the
      index of the entry found. */
  function FindManifest(entries: seq<Entry>): (r: Option<nat>)
    ensures r.Some? ==> r.value < |entries| && IsManifestName(entries[r.value].name)
    ensures r.Some? ==> forall j :: 0 <= j < r.value ==> !IsManifestName(entries[j].name)
    ensures r.None? <==> forall j :: 0 <= j < |entries| ==> !IsManifestName(entries[j].name)
  {
    if entries == [] then None
    else if IsManifestName(entries[0].name) then Some(0)
    else match FindManifest(entries[1..])
      case None => None
      case Some(i) => Some(i + 1)
  }

  /** Once an archive holds a manifest entry, entries listed after it never
      change which entry is found. */
  lemma {:induction false} FindManifestIgnoresLaterEntries(entries: seq<Entry>, later: seq<Entry>)
    requires FindManifest(entries).Some?
    ensures FindManifest(entries + later) == FindManifest(entries)
  {
    assert entries != [];
    if !IsManifestName(entries[0].name) {
      assert (entries + later)[1..] == entries[1..] + later;
      FindManifestIgnoresLaterEntries(entries[1..], later);
    }
  }

  /** The match is on the name's ending only, and is case-sensitive. */
  lemma ManifestNameExamples()
    ensures IsManifestName("Info.plist")
    ensures IsManifestName("Payload/App.app/Info.plist")
    ensures IsManifestName("Payload/App.app/Frameworks/Kit.framework/Info.plist")
    ensures !IsManifestName("info.plist")
    ensures !IsManifestName("Payload/App.app/INFO.PLIST")
    ensures !IsManifestName("Payload/App.app/Info.plist.bak")
  {
  }

  /** JavaScript's `s || 'Other'` on a string: the empty string is falsy. */
  function OrOther(s: string): (r: string)
    ensures r != ""
    ensures s != "" ==> r == s
    ensures s == "" ==> r == DefaultSection
  {
    if s == "" then DefaultSection else s
  }

  /** `rule.section || 'Other'`: an absent section is falsy too. */
  function SectionOf(section: Option<string>): (r: string)
    ensures r != ""
    ensures section.None? ==> r == DefaultSection
    ensures section.Some? ==> r == OrOther(section.value)
  {
    match section
    case None => DefaultSection
    case Some(s) => OrOther(s)
  }

  /** The result record for one rule (the arrow function of `rules.map`),
      with `hasOwnProperty` read as the own-key test it is meant to be. */
  function EvaluateRule(m: Manifest, rule: Rule): (r: EvalResult)
    ensures r.id == rule.id && r.description == rule.description
    ensures r.key == rule.key && r.severity == rule.severity
    ensures r.passed <==> rule.key in m
    ensures rule.section.Some? && rule.section.value != "" ==> r.section == rule.section.value
    ensures rule.section.None? || rule.section.value == "" ==> r.section == DefaultSection
  {
    EvalResult(rule.id, rule.description, rule.key, rule.key in m, rule.severity, SectionOf(rule.section))
  }

  /** `rules.map(...)`: one result per rule, result i built from rule i. */
  function Evaluate(m: Manifest, rules: seq<Rule>): (rs: seq<EvalResult>)
    ensures |rs| == |rules|
    ensures forall i :: 0 <= i < |rules| ==> rs[i] == EvaluateRule(m, rules[i])
  {
    if rules == [] then [] else [EvaluateRule(m, rules[0])] + Evaluate(m, rules[1..])
  }

  /** Evaluating a concatenated catalogue is concatenating the evaluations. */
  lemma EvaluateAppend(m: Manifest, a: seq<Rule>, b: seq<Rule>)
    ensures Evaluate(m, a + b) == Evaluate(m, a) + Evaluate(m, b)
  {
    var l, r := Evaluate(m, a + b), Evaluate(m, a) + Evaluate(m, b);
    assert |l| == |r|;
    forall i | 0 <= i < |l|
      ensures l[i] == r[i]
    {
      if i < |a| {
        assert (a + b)[i] == a[i];
      } else {
        assert (a + b)[i] == b[i - |a|];
      }
    }
  }

  /** Only the manifest's keys matter: the values stored under them are
      never inspected. */
  lemma EvaluateDependsOnKeysOnly(m1: Manifest, m2: Manifest, rules: seq<Rule>)
    requires m1.Keys == m2.Keys
    ensures Evaluate(m1, rules) == Evaluate(m2, rules)
  {
    var l, r := Evaluate(m1, rules), Evaluate(m2, rules);
    forall i | 0 <= i < |rules|
      ensures l[i] == r[i]
    {
      assert rules[i].key in m1 <==> rules[i].key in m2;
    }
  }

  /** A manifest with more keys passes at least the rules a manifest with
      fewer keys passes, and the results differ in nothing else. */
  lemma EvaluateMonotone(m1: Manifest, m2: Manifest, rules: seq<Rule>)
    requires m1.Keys <= m2.Keys
    ensures forall i :: 0 <= i < |rules| ==> (Evaluate(m1, rules)[i].passed ==> Evaluate(m2, rules)[i].passed)
    ensures forall i :: 0 <= i < |rules| ==> Evaluate(m1, rules)[i].(passed := true) == Evaluate(m2, rules)[i].(passed := true)
  {
  }

  /** The number of passing results is the number of rules whose key the
      manifest has. */
  function PassedCount(rs: seq<EvalResult>): nat {
    if rs == [] then 0 else (if rs[0].passed then 1 else 0) + PassedCount(rs[1..])
  }

  function KeyPresentCount(m: Manifest, rules: seq<Rule>): nat {
    if rules == [] then 0 else (if rules[0].key in m then 1 else 0) + KeyPresentCount(m, rules[1..])
  }

  lemma {:induction false} PassedCountIsKeyPresentCount(m: Manifest, rules: seq<Rule>)
    ensures PassedCount(Evaluate(m, rules)) == KeyPresentCount(m, rules)
  {
    if rules != [] {
      var rs := Evaluate(m, rules);
      assert rs[1..] == Evaluate(m, rules[1..]);
      PassedCountIsKeyPresentCount(m, rules[1..]);
    }
  }

  /** The whole analysis of one request after the upload is stored, with
      the own-key test evaluated as intended: locate the manifest, decode it
      with `parse` (None when the decoder throws), and evaluate the
      catalogue. `AnalyzeAsWritten` is the handler as written. */
  function Analyze(entries: seq<Entry>, parse: seq<byte> -> Option<Manifest>, rules: seq<Rule>): (o: Outcome)
    ensures o.NotFound? <==> forall j :: 0 <= j < |entries| ==> !IsManifestName(entries[j].name)
    ensures o.Results? ==> |o.results| == |rules|
    ensures forall i :: 0 <= i < |entries| && IsManifestName(entries[i].name)
                        && (forall j :: 0 <= j < i ==> !IsManifestName(entries[j].name)) ==>
              && (o.Failed? <==> parse(entries[i].data).None?)
              && (o.Results? ==> o.results == Evaluate(parse(entries[i].data).value, rules))
  {
    match FindManifest(entries)
    case None => NotFound
    case Some(i) =>
      match parse(entries[i].data)
      case None => Failed
      case Some(m) => Results(Evaluate(m, rules))
  }

  /** `plistData.hasOwnProperty(rule.key)` as written: the method is looked
      up on the manifest object itself, so a manifest with its own
      "hasOwnProperty" entry (a plist value, never a function) makes the
      call throw, and the request fails instead of reporting. */
  function EvaluateAsWritten(m: Manifest, rules: seq<Rule>): (r: Option<seq<EvalResult>>)
    ensures r.None? <==> rules != [] && "hasOwnProperty" in m
    ensures r.Some? ==> r.value == Evaluate(m, rules)
  {
    if rules == [] then Some([])
    else if "hasOwnProperty" in m then None
    else match EvaluateAsWritten(m, rules[1..])
      case None => None
      case Some(rest) => Some([EvaluateRule(m, rules[0])] + rest)
  }

  /** The handler as written: a failing `hasOwnProperty` call inside
      `rules.map` lands in the same catch as a decoder failure (status 500).
      It answers exactly as the intended analysis does, except when the
      first manifest entry decodes to a manifest with its own key
      "hasOwnProperty" and the catalogue is not empty: then it fails where
      the intended analysis reports. */
  function AnalyzeAsWritten(entries: seq<Entry>, parse: seq<byte> -> Option<Manifest>, rules: seq<Rule>): (o: Outcome)
    ensures var i := FindManifest(entries);
            var shadowed := i.Some? && parse(entries[i.value].data).Some?
                            && rules != [] && "hasOwnProperty" in parse(entries[i.value].data).value;
            && (!shadowed ==> o == Analyze(entries, parse, rules))
            && (shadowed ==> o.Failed? && Analyze(entries, parse, rules).Results?)
  {
    match FindManifest(entries)
    case None => NotFound
    case Some(i) =>
      match parse(entries[i].data)
      case None => Failed
      case Some(m) =>
        match EvaluateAsWritten(m, rules)
        case None => Failed
        case Some(rs) => Results(rs)
  }

  /** A manifest that declares a key "hasOwnProperty" gets no report at all
      from the code as written, where the intended semantics gives every
      rule its result. */
  lemma ShadowedHasOwnPropertyFails()
    ensures var m := map["hasOwnProperty" := PString("x"), "CFBundleIdentifier" := PString("com.example.app")];
            var rules := [Rule("r1", "CFBundleIdentifier", "Has bundle id", "Critical", Some("Identity"))];
            && EvaluateAsWritten(m, rules) == None
            && Evaluate(m, rules) == [EvalResult("r1", "Has bundle id", "CFBundleIdentifier", true, "Critical", "Identity")]
  {
  }
}
