/** The grouping of the flat result list on the results page
    (pages/index.tsx): a `reduce` that files every result under
    `r.section || 'Other'` in a dictionary accumulator, followed by
    `Object.entries`, which lists the groups in the dictionary's key order. */
module ResultsPage {
  import opened UploadApi
  import JsObject

  /** A section heading with its results. */
  type Group = (string, seq<EvalResult>)

  /** The key a result is grouped under: `r.section || 'Other'`. */
  function SectionKey(r: EvalResult): (k: string)
    ensures k != ""
    ensures r.section != "" ==> k == r.section
    ensures r.section == "" ==> k == DefaultSection
  {
    OrOther(r.section)
  }

  /** The results of `rs` filed under section `n`, in input order. */
  function Members(rs: seq<EvalResult>, n: string): seq<EvalResult> {
    if rs == [] then []
    else Members(rs[..|rs| - 1], n) + (if SectionKey(rs[|rs| - 1]) == n then [rs[|rs| - 1]] else [])
  }

  /** The positions in `rs` of the results filed under `n`. */
  function Positions(rs: seq<EvalResult>, n: string): seq<nat> {
    if rs == [] then []
    else Positions(rs[..|rs| - 1], n) + (if SectionKey(rs[|rs| - 1]) == n then [|rs| - 1] else [])
  }

  /** Section keys, each once, in the order their first result occurs:
      the order in which the reduce creates the accumulator's keys. */
  function FirstSeen(rs: seq<EvalResult>): seq<string> {
    if rs == [] then []
    else
      var seen := FirstSeen(rs[..|rs| - 1]);
      var k := SectionKey(rs[|rs| - 1]);
      if k in seen then seen else seen + [k]
  }

  /** One group per name of `names`, holding that section's results. */
  function Groups(rs: seq<EvalResult>, names: seq<string>): seq<Group> {
    if names == [] then [] else [(names[0], Members(rs, names[0]))] + Groups(rs, names[1..])
  }

  /** The grouped report the page renders. */
  function Report(rs: seq<EvalResult>): seq<Group> {
    Groups(rs, JsObject.OwnKeys(FirstSeen(rs)))
  }

  function Names(groups: seq<Group>): seq<string> {
    if groups == [] then [] else [groups[0].0] + Names(groups[1..])
  }

  /** The groups' results one after the other; its length is the sum of
      the group sizes. */
  function Flatten(groups: seq<Group>): seq<EvalResult> {
    if groups == [] then [] else groups[0].1 + Flatten(groups[1..])
  }

  /** `grouped.length > 0`: whether the results panel is rendered. */
  predicate PanelShown(groups: seq<Group>): (b: bool)
    ensures b <==> groups != []
  {
    |groups| > 0
  }

  /** `result.results || []`: what the page keeps from a response. */
  function DisplayedResults(o: Outcome): (rs: seq<EvalResult>)
    ensures o.Results? ==> rs == o.results
    ensures o.NotFound? || o.Failed? ==> rs == []
  {
    if o.Results? then o.results else []
  }

  /** `Object.entries` of a dictionary whose keys were created in the order
      `created`: its (key, value) pairs in the object's own-key order. */
  function Entries(acc: map<string, seq<EvalResult>>, created: seq<string>): (r: seq<Group>)
    requires forall n :: n in created ==> n in acc
    ensures |r| == |created|
    ensures forall j :: 0 <= j < |r| ==> r[j].0 == JsObject.OwnKeys(created)[j]
    ensures forall j :: 0 <= j < |r| ==> r[j].0 in acc && r[j].1 == acc[r[j].0]
  {
    var order := JsObject.OwnKeys(created);
    assert forall j :: 0 <= j < |order| ==> order[j] in created;
    seq(|order|, j requires 0 <= j < |order| => (order[j], acc[order[j]]))
  }

  /** The accumulator the reduce builds from `rs`: every section filed so
      far, mapped to its results. */
  function AccOf(rs: seq<EvalResult>): map<string, seq<EvalResult>> {
    map n | n in FirstSeen(rs) :: Members(rs, n)
  }

  /** The intended `reduce`, with an own-key test where the page writes
      `!acc[section]`: the accumulator is a dictionary `acc` together with
      `created`, the order in which its keys were created. A section that
      is not yet a key of `acc` gets an empty list first; then the result
      is appended to its section's list. `ReduceAsWritten` is the reduce as
      written, and `GroupAsWrittenSpec` relates the two. */
  method Accumulate(results: seq<EvalResult>) returns (acc: map<string, seq<EvalResult>>, created: seq<string>)
    ensures created == FirstSeen(results)
    ensures acc == AccOf(results)
  {
    acc, created := map[], [];
    for i := 0 to |results|
      invariant created == FirstSeen(results[..i])
      invariant acc == AccOf(results[..i])
    {
      var section := SectionKey(results[i]);
      ghost var done := results[..i];
      assert results[..i + 1] == done + [results[i]];
      AccOfSnoc(done, results[i]);
      FirstSeenSnoc(done, results[i]);
      var filed := if section in acc then acc[section] else [];
      if section !in acc {
        created := created + [section];
      }
      acc := acc[section := filed + [results[i]]];
    }
    assert results[..|results|] == results;
  }

  /** One step of the intended reduce (own-key test): a new section starts
      with an empty list, and the result is appended to its section's list. */
  lemma AccOfSnoc(rs: seq<EvalResult>, x: EvalResult)
    ensures var a, k := AccOf(rs), SectionKey(x);
            AccOf(rs + [x]) == a[k := (if k in a then a[k] else []) + [x]]
    ensures SectionKey(x) in AccOf(rs) <==> SectionKey(x) in FirstSeen(rs)
  {
    var a, k := AccOf(rs), SectionKey(x);
    FirstSeenMembers(rs);
    AccOfKeysSnoc(rs, x);
    MembersSnoc(rs, x);
    var l, r := AccOf(rs + [x]), a[k := (if k in a then a[k] else []) + [x]];
    forall n | n in l
      ensures l[n] == r[n]
    {
      assert l[n] == Members(rs, n) + (if k == n then [x] else []);
    }
  }

  lemma AccOfKeysSnoc(rs: seq<EvalResult>, x: EvalResult)
    ensures AccOf(rs + [x]).Keys == AccOf(rs).Keys + {SectionKey(x)}
  {
    FirstSeenSnoc(rs, x);
  }

  /** The intended grouping (own-key test): the reduce, then
      `Object.entries` on the accumulator, which lists its keys in the
      object's own-key order. `GroupAsWritten` is the page's code as
      written; `GroupAsWrittenSpec` shows it agrees with this grouping
      unless a section key is inherited from Object.prototype. */
  method GroupBySection(results: seq<EvalResult>) returns (grouped: seq<Group>)
    ensures grouped == Report(results)
  {
    var acc, created := Accumulate(results);
    grouped := Entries(acc, created);
    EntriesOfAccumulator(results, acc, created);
  }

  /** Listing an accumulator that holds each first-seen section with its
      members gives the report. */
  lemma EntriesOfAccumulator(rs: seq<EvalResult>, acc: map<string, seq<EvalResult>>, created: seq<string>)
    requires created == FirstSeen(rs)
    requires forall n :: n in acc <==> n in created
    requires forall n :: n in acc ==> acc[n] == Members(rs, n)
    ensures Entries(acc, created) == Report(rs)
  {
    var order := JsObject.OwnKeys(created);
    NamesOfGroups(rs, order);
    var e, g := Entries(acc, created), Report(rs);
    assert |e| == |order| == |g|;
    forall j | 0 <= j < |order|
      ensures e[j] == g[j]
    {
      assert order[j] in multiset(order);
      JsObject.OwnKeysPermutation(created);
    }
  }

  /** One more result adds its section key to FirstSeen when, and only
      when, the key is new. */
  lemma FirstSeenSnoc(rs: seq<EvalResult>, x: EvalResult)
    ensures FirstSeen(rs + [x]) == (if SectionKey(x) in FirstSeen(rs) then FirstSeen(rs) else FirstSeen(rs) + [SectionKey(x)])
  {
    assert (rs + [x])[..|rs|] == rs;
  }

  /** One more result is appended to its own section's members and to no
      other section's. */
  lemma MembersSnoc(rs: seq<EvalResult>, x: EvalResult)
    ensures forall n :: Members(rs + [x], n) == Members(rs, n) + (if SectionKey(x) == n then [x] else [])
  {
    assert (rs + [x])[..|rs|] == rs;
  }

  lemma PositionsSnoc(rs: seq<EvalResult>, x: EvalResult, n: string)
    ensures Positions(rs + [x], n) == Positions(rs, n) + (if SectionKey(x) == n then [|rs|] else [])
  {
    assert (rs + [x])[..|rs|] == rs;
  }

  /** The positions of a section are increasing, in range, and exactly
      those whose result's section key is that section. */
  lemma {:induction false} PositionsExact(rs: seq<EvalResult>, n: string)
    ensures forall k :: 0 <= k < |Positions(rs, n)| ==> Positions(rs, n)[k] < |rs|
    ensures forall k, l :: 0 <= k < l < |Positions(rs, n)| ==> Positions(rs, n)[k] < Positions(rs, n)[l]
    ensures forall i :: 0 <= i < |rs| ==> (SectionKey(rs[i]) == n <==> i in Positions(rs, n))
  {
    if rs != [] {
      var p, x := rs[..|rs| - 1], rs[|rs| - 1];
      assert rs == p + [x];
      PositionsExact(p, n);
      MembersSnoc(p, x);
      PositionsSnoc(p, x, n);
      forall i | 0 <= i < |p|
        ensures rs[i] == p[i]
      {
      }
    }
  }

  /** A section's members are the results at its positions, in order. */
  lemma {:induction false} MembersAtPositions(rs: seq<EvalResult>, n: string)
    ensures |Positions(rs, n)| == |Members(rs, n)|
    ensures forall k :: 0 <= k < |Positions(rs, n)| ==>
              Positions(rs, n)[k] < |rs| && Members(rs, n)[k] == rs[Positions(rs, n)[k]]
  {
    if rs != [] {
      var p, x := rs[..|rs| - 1], rs[|rs| - 1];
      assert rs == p + [x];
      MembersAtPositions(p, n);
      MembersSnoc(p, x);
      PositionsSnoc(p, x, n);
    }
  }

  lemma {:induction false} MembersHaveSection(rs: seq<EvalResult>, n: string)
    ensures forall r :: r in Members(rs, n) ==> SectionKey(r) == n
  {
    if rs != [] {
      MembersHaveSection(rs[..|rs| - 1], n);
    }
  }

  /** FirstSeen holds each section key that occurs, once, and only those. */
  lemma {:induction false} FirstSeenMembers(rs: seq<EvalResult>)
    ensures JsObject.Distinct(FirstSeen(rs))
    ensures forall n :: n in FirstSeen(rs) <==> Members(rs, n) != []
  {
    if rs != [] {
      var p, x := rs[..|rs| - 1], rs[|rs| - 1];
      assert rs == p + [x];
      FirstSeenMembers(p);
      MembersSnoc(p, x);
      FirstSeenSnoc(p, x);
    }
  }

  /** The first result of a section earlier in FirstSeen occurs before the
      first result of a later one. */
  lemma {:induction false} FirstSeenOrder(rs: seq<EvalResult>)
    ensures forall i :: 0 <= i < |FirstSeen(rs)| ==> Positions(rs, FirstSeen(rs)[i]) != []
    ensures forall i, j :: 0 <= i < j < |FirstSeen(rs)| ==>
              Positions(rs, FirstSeen(rs)[i])[0] < Positions(rs, FirstSeen(rs)[j])[0]
  {
    if rs != [] {
      var p, x := rs[..|rs| - 1], rs[|rs| - 1];
      assert rs == p + [x];
      FirstSeenOrder(p);
      FirstSeenOrderStep(p, x);
    }
  }

  lemma FirstSeenOrderStep(p: seq<EvalResult>, x: EvalResult)
    requires forall i :: 0 <= i < |FirstSeen(p)| ==> Positions(p, FirstSeen(p)[i]) != []
    requires forall i, j :: 0 <= i < j < |FirstSeen(p)| ==>
               Positions(p, FirstSeen(p)[i])[0] < Positions(p, FirstSeen(p)[j])[0]
    ensures forall i :: 0 <= i < |FirstSeen(p + [x])| ==> Positions(p + [x], FirstSeen(p + [x])[i]) != []
    ensures forall i, j :: 0 <= i < j < |FirstSeen(p + [x])| ==>
              Positions(p + [x], FirstSeen(p + [x])[i])[0] < Positions(p + [x], FirstSeen(p + [x])[j])[0]
  {
    var rs, fp := p + [x], FirstSeen(p);
    var fs := FirstSeen(rs);
    FirstSeenStep(p, x);
    forall i | 0 <= i < |fs|
      ensures Positions(rs, fs[i]) != []
    {
      if i < |fp| {
        FirstPositionStable(p, x, fp[i]);
      }
    }
    forall i, j | 0 <= i < j < |fs|
      ensures Positions(rs, fs[i])[0] < Positions(rs, fs[j])[0]
    {
      FirstPositionStable(p, x, fp[i]);
      if j < |fp| {
        FirstPositionStable(p, x, fp[j]);
      }
    }
  }

  /** FirstSeen grows by at most the new result's section key, whose only
      position is then the new one. */
  lemma FirstSeenStep(p: seq<EvalResult>, x: EvalResult)
    ensures |FirstSeen(p)| <= |FirstSeen(p + [x])| <= |FirstSeen(p)| + 1
    ensures forall i :: 0 <= i < |FirstSeen(p)| ==> FirstSeen(p + [x])[i] == FirstSeen(p)[i]
    ensures |FirstSeen(p + [x])| == |FirstSeen(p)| + 1 ==>
              FirstSeen(p + [x])[|FirstSeen(p)|] == SectionKey(x) && Positions(p + [x], SectionKey(x)) == [|p|]
  {
    var k := SectionKey(x);
    MembersSnoc(p, x);
    PositionsSnoc(p, x, k);
    FirstSeenSnoc(p, x);
    if k !in FirstSeen(p) {
      FirstSeenMembers(p);
      MembersAtPositions(p, k);
    }
  }

  lemma FirstPositionStable(p: seq<EvalResult>, x: EvalResult, n: string)
    requires Positions(p, n) != []
    ensures Positions(p + [x], n) != [] && Positions(p + [x], n)[0] == Positions(p, n)[0] < |p|
  {
    MembersSnoc(p, x);
    PositionsSnoc(p, x, n);
    PositionsExact(p, n);
    MembersAtPositions(p, n);
  }

  lemma {:induction false} NamesOfGroups(rs: seq<EvalResult>, names: seq<string>)
    ensures Names(Groups(rs, names)) == names
    ensures |Groups(rs, names)| == |names|
    ensures forall i :: 0 <= i < |names| ==> Groups(rs, names)[i] == (names[i], Members(rs, names[i]))
  {
    if names != [] {
      NamesOfGroups(rs, names[1..]);
    }
  }

  /** Adding one result to the input adds it to the flattened groups once
      if its section is among `names`, and not at all otherwise. */
  lemma {:induction false} FlattenSnoc(rs: seq<EvalResult>, x: EvalResult, names: seq<string>)
    requires JsObject.Distinct(names)
    ensures multiset(Flatten(Groups(rs + [x], names)))
         == multiset(Flatten(Groups(rs, names))) + (if SectionKey(x) in names then multiset{x} else multiset{})
  {
    if names != [] {
      var n, tail := names[0], names[1..];
      DistinctTail(names);
      FlattenSnoc(rs, x, tail);
      MembersSnoc(rs, x);
    }
  }

  lemma DistinctTail(names: seq<string>)
    requires names != [] && JsObject.Distinct(names)
    ensures JsObject.Distinct(names[1..]) && names[0] !in names[1..]
  {
    assert names == [names[0]] + names[1..];
    assert multiset(names) == multiset{names[0]} + multiset(names[1..]);
    forall y ensures multiset(names[1..])[y] <= 1 {
      assert multiset(names)[y] <= 1;
    }
    assert multiset(names)[names[0]] <= 1;
  }

  lemma {:induction false} FlattenPartition(rs: seq<EvalResult>, names: seq<string>)
    requires JsObject.Distinct(names)
    requires forall i :: 0 <= i < |rs| ==> SectionKey(rs[i]) in names
    ensures multiset(Flatten(Groups(rs, names))) == multiset(rs)
  {
    if rs == [] {
      EmptyFlatten(names);
    } else {
      var p, x := rs[..|rs| - 1], rs[|rs| - 1];
      assert rs == p + [x];
      FlattenPartition(p, names);
      FlattenSnoc(p, x, names);
    }
  }

  lemma {:induction false} EmptyFlatten(names: seq<string>)
    ensures Flatten(Groups([], names)) == []
  {
    if names != [] {
      EmptyFlatten(names[1..]);
    }
  }

  /** Every result lands in exactly one group: the groups together hold
      the input, so their sizes add up to its length. */
  lemma ReportPartition(rs: seq<EvalResult>)
    ensures multiset(Flatten(Report(rs))) == multiset(rs)
    ensures |Flatten(Report(rs))| == |rs|
  {
    var created := FirstSeen(rs);
    FirstSeenMembers(rs);
    JsObject.OwnKeysPermutation(created);
    forall i | 0 <= i < |rs|
      ensures SectionKey(rs[i]) in JsObject.OwnKeys(created)
    {
      PositionsExact(rs, SectionKey(rs[i]));
      MembersAtPositions(rs, SectionKey(rs[i]));
      assert i in Positions(rs, SectionKey(rs[i]));
      assert SectionKey(rs[i]) in created;
    }
    FlattenPartition(rs, JsObject.OwnKeys(created));
    assert |multiset(Flatten(Report(rs)))| == |multiset(rs)|;
  }

  lemma DistinctPairwise(s: seq<string>)
    requires JsObject.Distinct(s)
    ensures forall i, j :: 0 <= i < j < |s| ==> s[i] != s[j]
  {
    forall i, j | 0 <= i < j < |s|
      ensures s[i] != s[j]
    {
      assert s == s[..j] + s[j..];
      assert s[i] in multiset(s[..j]);
      assert s[j] in multiset(s[j..]);
      assert multiset(s)[s[j]] == multiset(s[..j])[s[j]] + multiset(s[j..])[s[j]];
    }
  }

  /** A section has a group exactly when some result is filed under it,
      and no section has two groups. */
  lemma ReportNames(rs: seq<EvalResult>)
    ensures forall n :: n in Names(Report(rs)) <==> exists i :: 0 <= i < |rs| && SectionKey(rs[i]) == n
    ensures forall i, j :: 0 <= i < j < |Report(rs)| ==> Report(rs)[i].0 != Report(rs)[j].0
  {
    var order := JsObject.OwnKeys(FirstSeen(rs));
    ReportNamesOccur(rs);
    NamesOfGroups(rs, order);
    DistinctPairwise(order);
    forall n
      ensures n in order <==> exists i :: 0 <= i < |rs| && SectionKey(rs[i]) == n
    {
      SectionOccurs(rs, n);
    }
  }

  /** A section has members exactly when some result is filed under it. */
  lemma SectionOccurs(rs: seq<EvalResult>, n: string)
    ensures Members(rs, n) != [] <==> exists i :: 0 <= i < |rs| && SectionKey(rs[i]) == n
  {
    PositionsExact(rs, n);
    MembersAtPositions(rs, n);
    if Members(rs, n) != [] {
      var i := Positions(rs, n)[0];
      assert SectionKey(rs[i]) == n;
    }
    if exists i :: 0 <= i < |rs| && SectionKey(rs[i]) == n {
      var i :| 0 <= i < |rs| && SectionKey(rs[i]) == n;
      assert i in Positions(rs, n);
    }
  }

  /** The report's names are the first-seen sections, each once. */
  lemma ReportNamesOccur(rs: seq<EvalResult>)
    ensures JsObject.Distinct(JsObject.OwnKeys(FirstSeen(rs)))
    ensures forall n :: n in JsObject.OwnKeys(FirstSeen(rs)) <==> Members(rs, n) != []
  {
    var created := FirstSeen(rs);
    FirstSeenMembers(rs);
    JsObject.OwnKeysPermutation(created);
    forall n
      ensures n in JsObject.OwnKeys(created) <==> n in created
    {
      assert n in JsObject.OwnKeys(created) <==> n in multiset(JsObject.OwnKeys(created));
    }
  }

  /** Each group holds exactly its section's results, filed under the
      group's name, and is not empty. */
  lemma ReportGroups(rs: seq<EvalResult>)
    ensures forall i :: 0 <= i < |Report(rs)| ==> Report(rs)[i].1 == Members(rs, Report(rs)[i].0)
    ensures forall i :: 0 <= i < |Report(rs)| ==> Report(rs)[i].1 != []
    ensures forall i :: 0 <= i < |Report(rs)| ==> forall r :: r in Report(rs)[i].1 ==> SectionKey(r) == Report(rs)[i].0
  {
    var order := JsObject.OwnKeys(FirstSeen(rs));
    ReportNamesOccur(rs);
    NamesOfGroups(rs, order);
    forall i | 0 <= i < |order|
      ensures Members(rs, order[i]) != []
      ensures forall r :: r in Members(rs, order[i]) ==> SectionKey(r) == order[i]
    {
      MembersHaveSection(rs, order[i]);
    }
  }

  /** Groups whose names are not array indices appear in the order their
      first results occur; with no such name at all, the report's order
      is exactly first-seen order. */
  lemma ReportOrder(rs: seq<EvalResult>)
    ensures JsObject.StringKeys(Names(Report(rs))) == JsObject.StringKeys(FirstSeen(rs))
    ensures (forall i :: 0 <= i < |rs| ==> !JsObject.IsArrayIndex(SectionKey(rs[i]))) ==>
              Names(Report(rs)) == FirstSeen(rs)
  {
    var created := FirstSeen(rs);
    NamesOfGroups(rs, JsObject.OwnKeys(created));
    JsObject.OwnKeysStringOrder(created);
    if forall i :: 0 <= i < |rs| ==> !JsObject.IsArrayIndex(SectionKey(rs[i])) {
      FirstSeenMembers(rs);
      forall j | 0 <= j < |created|
        ensures !JsObject.IsArrayIndex(created[j])
      {
        PositionsExact(rs, created[j]);
        MembersAtPositions(rs, created[j]);
        assert SectionKey(rs[Positions(rs, created[j])[0]]) == created[j];
      }
      JsObject.OwnKeysWithoutIndices(created);
    }
  }

  /** Groups whose names are array indices come first, in ascending numeric
      order of their names. */
  lemma ReportIndexSectionsFirst(rs: seq<EvalResult>)
    ensures forall i, j :: 0 <= i < j < |Names(Report(rs))| && JsObject.IsArrayIndex(Names(Report(rs))[j]) ==>
              JsObject.IsArrayIndex(Names(Report(rs))[i])
              && JsObject.IndexValue(Names(Report(rs))[i]) <= JsObject.IndexValue(Names(Report(rs))[j])
  {
    NamesOfGroups(rs, JsObject.OwnKeys(FirstSeen(rs)));
    JsObject.OwnKeysIndicesFirst(FirstSeen(rs));
  }

  /** No results, no groups, and the panel is hidden; results, groups. */
  lemma ReportEmpty(rs: seq<EvalResult>)
    ensures Report(rs) == [] <==> rs == []
    ensures PanelShown(Report(rs)) <==> rs != []
  {
    ReportPartition(rs);
    if Report(rs) == [] {
      assert Flatten(Report(rs)) == [];
    }
  }

  /** With the intended analysis and grouping, the page shows a results
      panel exactly when the analysis produced results and the catalogue is
      not empty. */
  lemma PanelShownAfterAnalysis(entries: seq<Entry>, parse: seq<byte> -> Option<Manifest>, rules: seq<Rule>)
    ensures PanelShown(Report(DisplayedResults(Analyze(entries, parse, rules))))
        <==> Analyze(entries, parse, rules).Results? && rules != []
  {
    ReportEmpty(DisplayedResults(Analyze(entries, parse, rules)));
  }

  /** Sections evaluated by the endpoint are never empty, so the page's
      own `|| 'Other'` files every result under the section the endpoint
      gave it. */
  lemma SectionKeyOfEvaluated(m: Manifest, rules: seq<Rule>)
    ensures forall i :: 0 <= i < |rules| ==> SectionKey(Evaluate(m, rules)[i]) == SectionOf(rules[i].section)
  {
  }

  /** When first-seen order has no array-index name, the report is one
      group per name in that order. */
  lemma ReportWithoutIndices(rs: seq<EvalResult>, names: seq<string>)
    requires FirstSeen(rs) == names
    requires forall i :: 0 <= i < |names| ==> !JsObject.IsArrayIndex(names[i])
    ensures Report(rs) == Groups(rs, names)
  {
    JsObject.OwnKeysWithoutIndices(names);
  }

  lemma ExampleSections(a1: EvalResult, b: EvalResult, a2: EvalResult)
    requires SectionKey(a1) == SectionKey(a2) != SectionKey(b)
    ensures FirstSeen([a1, b, a2]) == [SectionKey(a1), SectionKey(b)]
    ensures Members([a1, b, a2], SectionKey(a1)) == [a1, a2] && Members([a1, b, a2], SectionKey(b)) == [b]
  {
    var r1 := [] + [a1];
    var r2 := r1 + [b];
    MembersSnoc([], a1);
    MembersSnoc(r1, b);
    MembersSnoc(r2, a2);
    FirstSeenSnoc([], a1);
    FirstSeenSnoc(r1, b);
    FirstSeenSnoc(r2, a2);
    assert r2 + [a2] == [a1, b, a2];
  }

  /** Sections [A, B, A] give groups [A, B], A holding both of its results
      in order. */
  lemma ReportExample(a1: EvalResult, b: EvalResult, a2: EvalResult)
    requires a1.section == "A" && b.section == "B" && a2.section == "A"
    ensures Report([a1, b, a2]) == [("A", [a1, a2]), ("B", [b])]
  {
    ExampleSections(a1, b, a2);
    assert !JsObject.IsArrayIndex("A") && !JsObject.IsArrayIndex("B") by {
      assert !JsObject.IsDigit("A"[0]) && !JsObject.IsDigit("B"[0]);
    }
    ReportWithoutIndices([a1, b, a2], ["A", "B"]);
    NamesOfGroups([a1, b, a2], ["A", "B"]);
  }

  /** Two rules in section "Security" around one without a section: two
      groups, "Security" with both of its results in catalogue order, then
      "Other". */
  lemma SecurityOtherScenario(m: Manifest, r1: Rule, r2: Rule, r3: Rule)
    requires r1.section == Some("Security") && r2.section == None && r3.section == Some("Security")
    ensures var rs := Evaluate(m, [r1, r2, r3]);
            Report(rs) == [("Security", [rs[0], rs[2]]), ("Other", [rs[1]])]
  {
    var rs := Evaluate(m, [r1, r2, r3]);
    assert rs == [rs[0], rs[1], rs[2]];
    ExampleSections(rs[0], rs[1], rs[2]);
    assert !JsObject.IsArrayIndex("Security") && !JsObject.IsArrayIndex("Other") by {
      assert !JsObject.IsDigit("Security"[0]) && !JsObject.IsDigit("Other"[0]);
    }
    ReportWithoutIndices(rs, ["Security", "Other"]);
    NamesOfGroups(rs, ["Security", "Other"]);
  }

  /** A catalogue with one rule for "CFBundleIdentifier" in section
      "Identity" reports that section with the rule passed when the
      manifest has the key and failed when the manifest is empty. */
  lemma BundleIdentifierScenario(m: Manifest)
    ensures var rules := [Rule("r1", "CFBundleIdentifier", "Has bundle id", "Critical", Some("Identity"))];
            Report(Evaluate(m, rules))
            == [("Identity", [EvalResult("r1", "Has bundle id", "CFBundleIdentifier", "CFBundleIdentifier" in m, "Critical", "Identity")])]
  {
    var rules := [Rule("r1", "CFBundleIdentifier", "Has bundle id", "Critical", Some("Identity"))];
    var r := EvalResult("r1", "Has bundle id", "CFBundleIdentifier", "CFBundleIdentifier" in m, "Critical", "Identity");
    assert Evaluate(m, rules) == [] + [r];
    MembersSnoc([], r);
    FirstSeenSnoc([], r);
    assert !JsObject.IsArrayIndex("Identity") by {
      assert !JsObject.IsDigit("Identity"[0]);
    }
    assert [] + [r] == [r];
    assert FirstSeen([r]) == ["Identity"];
    assert Members([r], "Identity") == [r];
    ReportWithoutIndices([r], ["Identity"]);
    NamesOfGroups([r], ["Identity"]);
  }

  /** Properties of Object.prototype that every plain object inherits. */
  const ObjectPrototypeKeys: set<string> := {
    "constructor", "hasOwnProperty", "isPrototypeOf", "propertyIsEnumerable",
    "toString", "toLocaleString", "valueOf", "__proto__",
    "__defineGetter__", "__defineSetter__", "__lookupGetter__", "__lookupSetter__"
  }

  /** The reduce as written: `acc[section]` also finds the members that the
      accumulator `{}` inherits from Object.prototype. These are truthy, so
      no list is created, and `.push` on them is undefined: calling it
      throws (None). Otherwise the accumulator and its key creation order. */
  function ReduceAsWritten(rs: seq<EvalResult>): (r: Option<(map<string, seq<EvalResult>>, seq<string>)>)
    ensures r.Some? ==> forall n :: n in r.value.0 <==> n in r.value.1
  {
    if rs == [] then Some((map[], []))
    else
      match ReduceAsWritten(rs[..|rs| - 1])
      case None => None
      case Some(state) =>
        var acc, created, x := state.0, state.1, rs[|rs| - 1];
        var k := SectionKey(x);
        if k in acc then Some((acc[k := acc[k] + [x]], created))
        else if k in ObjectPrototypeKeys then None
        else Some((acc[k := [x]], created + [k]))
  }

  predicate HitsPrototype(rs: seq<EvalResult>) {
    exists i :: 0 <= i < |rs| && SectionKey(rs[i]) in ObjectPrototypeKeys
  }

  lemma {:induction false} ReduceAsWrittenState(rs: seq<EvalResult>)
    ensures ReduceAsWritten(rs).None? <==> HitsPrototype(rs)
    ensures ReduceAsWritten(rs).Some? ==>
              && ReduceAsWritten(rs).value.1 == FirstSeen(rs)
              && (forall n :: n in ReduceAsWritten(rs).value.0 <==> n in FirstSeen(rs))
              && (forall n :: n in ReduceAsWritten(rs).value.0 ==> ReduceAsWritten(rs).value.0[n] == Members(rs, n))
  {
    if rs != [] {
      var p, x := rs[..|rs| - 1], rs[|rs| - 1];
      assert rs == p + [x];
      ReduceAsWrittenState(p);
      MembersSnoc(p, x);
      FirstSeenSnoc(p, x);
      var k := SectionKey(x);
      assert HitsPrototype(rs) <==> HitsPrototype(p) || k in ObjectPrototypeKeys by {
        if HitsPrototype(p) {
          var i :| 0 <= i < |p| && SectionKey(p[i]) in ObjectPrototypeKeys;
          assert rs[i] == p[i];
        }
        if HitsPrototype(rs) && !HitsPrototype(p) {
          var i :| 0 <= i < |rs| && SectionKey(rs[i]) in ObjectPrototypeKeys;
          assert i == |p|;
        }
        assert rs[|p|] == x;
      }
      if !HitsPrototype(p) && k in ObjectPrototypeKeys {
        UnseenSection(p, k);
      }
      if !HitsPrototype(p) {
        FirstSeenMembers(p);
      }
    }
  }

  lemma {:induction false} UnseenSection(rs: seq<EvalResult>, k: string)
    requires forall i :: 0 <= i < |rs| ==> SectionKey(rs[i]) != k
    ensures k !in FirstSeen(rs)
  {
    if rs != [] {
      UnseenSection(rs[..|rs| - 1], k);
    }
  }

  /** The page's grouping as written: None when rendering throws. */
  function GroupAsWritten(rs: seq<EvalResult>): (r: Option<seq<Group>>)
    ensures r.Some? <==> ReduceAsWritten(rs).Some?
    ensures r.Some? ==> |r.value| == |ReduceAsWritten(rs).value.1|
  {
    match ReduceAsWritten(rs)
    case None => None
    case Some(state) =>
      Some(Entries(state.0, state.1))
  }

  /** The page as written throws exactly when some result's section key
      is inherited from Object.prototype, and otherwise renders the same
      groups as the intended grouping. */
  lemma GroupAsWrittenSpec(rs: seq<EvalResult>)
    ensures GroupAsWritten(rs).None? <==> HitsPrototype(rs)
    ensures GroupAsWritten(rs).Some? ==> GroupAsWritten(rs).value == Report(rs)
  {
    ReduceAsWrittenState(rs);
    if !HitsPrototype(rs) {
      var state := ReduceAsWritten(rs).value;
      EntriesOfAccumulator(rs, state.0, state.1);
    }
  }

  /** A single result in section "constructor" makes the page as written
      throw, where the intended grouping gives it a group of its own. */
  lemma PrototypeSectionThrows(r: EvalResult)
    requires r.section == "constructor"
    ensures GroupAsWritten([r]) == None
    ensures Report([r]) == [("constructor", [r])]
  {
    GroupAsWrittenSpec([r]);
    assert SectionKey([r][0]) in ObjectPrototypeKeys;
    assert !JsObject.IsArrayIndex("constructor") by {
      assert !JsObject.IsDigit("constructor"[0]);
    }
    assert [r] == [] + [r];
    MembersSnoc([], r);
    FirstSeenSnoc([], r);
    ReportWithoutIndices([r], ["constructor"]);
  }
}
