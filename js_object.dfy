/** The order in which an ordinary JavaScript object lists its own string
    keys (ECMA-262, section 10.1.11.1, OrdinaryOwnPropertyKeys), which is
    the order `Object.entries` returns its pairs in: first every key that is
    an array index, in ascending numeric order, then every other key in the
    order it was created. An object is described here by the sequence of
    its keys in creation order. */
module JsObject {

  /** Largest array index: an array index is an integer below 2^32 - 1. */
  const MaxArrayIndex: nat := 4294967294

  predicate IsDigit(c: char) {
    '0' <= c <= '9'
  }

  predicate AllDigits(s: string) {
    forall i :: 0 <= i < |s| ==> IsDigit(s[i])
  }

  /** Decimal value of a string of digits. */
  function DigitsValue(s: string): nat
    requires AllDigits(s)
  {
    if s == [] then 0
    else DigitsValue(s[..|s| - 1]) * 10 + (s[|s| - 1] as int - '0' as int)
  }

  /** A key is an array index when it is the canonical decimal spelling
      (no sign, no leading zero) of an integer from 0 to 2^32 - 2. */
  predicate IsArrayIndex(s: string) {
    && |s| > 0
    && AllDigits(s)
    && (s[0] == '0' ==> |s| == 1)
    && DigitsValue(s) <= MaxArrayIndex
  }

  /** The numeric value of an array-index key (0 for any other key). */
  function IndexValue(s: string): nat {
    if IsArrayIndex(s) then DigitsValue(s) else 0
  }

  /** Every element occurs at most once. */
  ghost predicate Distinct(s: seq<string>) {
    forall x :: multiset(s)[x] <= 1
  }

  /** The array-index keys of `keys`, in their order there. */
  function IndexKeys(keys: seq<string>): (r: seq<string>)
    ensures forall i :: 0 <= i < |r| ==> IsArrayIndex(r[i])
  {
    if keys == [] then []
    else (if IsArrayIndex(keys[0]) then [keys[0]] else []) + IndexKeys(keys[1..])
  }

  /** The keys of `keys` that are not array indices, in their order there. */
  function StringKeys(keys: seq<string>): (r: seq<string>)
    ensures forall i :: 0 <= i < |r| ==> !IsArrayIndex(r[i])
  {
    if keys == [] then []
    else (if IsArrayIndex(keys[0]) then [] else [keys[0]]) + StringKeys(keys[1..])
  }

  predicate SortedByIndex(s: seq<string>) {
    forall i, j :: 0 <= i < j < |s| ==> IndexValue(s[i]) <= IndexValue(s[j])
  }

  function InsertByIndex(k: string, s: seq<string>): seq<string> {
    if s == [] || IndexValue(k) <= IndexValue(s[0]) then [k] + s
    else [s[0]] + InsertByIndex(k, s[1..])
  }

  function SortByIndex(s: seq<string>): seq<string> {
    if s == [] then [] else InsertByIndex(s[0], SortByIndex(s[1..]))
  }

  /** Own keys of an object whose keys were created in the order `created`,
      in the order the object enumerates them. */
  function OwnKeys(created: seq<string>): (r: seq<string>)
    ensures |r| == |created|
    ensures forall k :: k in r <==> k in created
  {
    SortByIndexSorted(IndexKeys(created));
    SplitKeysMultiset(created);
    assert forall k :: k in created <==> k in multiset(created);
    SortByIndex(IndexKeys(created)) + StringKeys(created)
  }

  lemma {:induction false} InsertByIndexMultiset(k: string, s: seq<string>)
    ensures multiset(InsertByIndex(k, s)) == multiset(s) + multiset{k}
  {
    if s != [] && IndexValue(k) > IndexValue(s[0]) {
      assert s == [s[0]] + s[1..];
      InsertByIndexMultiset(k, s[1..]);
    }
  }

  lemma {:induction false} InsertByIndexSorted(k: string, s: seq<string>)
    requires SortedByIndex(s)
    ensures SortedByIndex(InsertByIndex(k, s))
  {
    if s == [] || IndexValue(k) <= IndexValue(s[0]) {
      SortedCons(k, s);
    } else {
      var h, rest := s[0], s[1..];
      InsertByIndexSorted(k, rest);
      InsertByIndexMultiset(k, rest);
      var t := InsertByIndex(k, rest);
      forall m | 0 <= m < |t|
        ensures IndexValue(h) <= IndexValue(t[m])
      {
        assert t[m] in multiset(rest) + multiset{k};
        if t[m] != k {
          var q :| 0 <= q < |rest| && rest[q] == t[m];
          assert s[q + 1] == rest[q];
        }
      }
      SortedCons(h, t);
    }
  }

  lemma SortedCons(h: string, t: seq<string>)
    requires SortedByIndex(t)
    requires forall m :: 0 <= m < |t| ==> IndexValue(h) <= IndexValue(t[m])
    ensures SortedByIndex([h] + t)
  {
    forall i, j | 0 <= i < j < |[h] + t|
      ensures IndexValue(([h] + t)[i]) <= IndexValue(([h] + t)[j])
    {
      assert ([h] + t)[j] == t[j - 1];
      if i > 0 {
        assert ([h] + t)[i] == t[i - 1];
      }
    }
  }

  lemma {:induction false} SortByIndexSorted(s: seq<string>)
    ensures multiset(SortByIndex(s)) == multiset(s)
    ensures SortedByIndex(SortByIndex(s))
  {
    if s != [] {
      assert s == [s[0]] + s[1..];
      SortByIndexSorted(s[1..]);
      InsertByIndexMultiset(s[0], SortByIndex(s[1..]));
      InsertByIndexSorted(s[0], SortByIndex(s[1..]));
    }
  }

  lemma {:induction false} SplitKeysMultiset(keys: seq<string>)
    ensures multiset(IndexKeys(keys)) + multiset(StringKeys(keys)) == multiset(keys)
  {
    if keys != [] {
      assert keys == [keys[0]] + keys[1..];
      SplitKeysMultiset(keys[1..]);
    }
  }

  lemma {:induction false} StringKeysAppend(a: seq<string>, b: seq<string>)
    ensures StringKeys(a + b) == StringKeys(a) + StringKeys(b)
  {
    if a != [] {
      assert (a + b)[1..] == a[1..] + b;
      StringKeysAppend(a[1..], b);
    } else {
      assert a + b == b;
    }
  }

  lemma {:induction false} StringKeysOfIndexKeys(s: seq<string>)
    requires forall i :: 0 <= i < |s| ==> IsArrayIndex(s[i])
    ensures StringKeys(s) == []
  {
    if s != [] {
      StringKeysOfIndexKeys(s[1..]);
    }
  }

  lemma {:induction false} StringKeysOfStringKeys(s: seq<string>)
    requires forall i :: 0 <= i < |s| ==> !IsArrayIndex(s[i])
    ensures StringKeys(s) == s && IndexKeys(s) == []
  {
    if s != [] {
      StringKeysOfStringKeys(s[1..]);
      assert s == [s[0]] + s[1..];
    }
  }

  /** Enumeration lists every created key exactly as often as it was
      created: it is a permutation of the creation order. */
  lemma OwnKeysPermutation(created: seq<string>)
    ensures multiset(OwnKeys(created)) == multiset(created)
    ensures Distinct(created) ==> Distinct(OwnKeys(created))
  {
    SortByIndexSorted(IndexKeys(created));
    SplitKeysMultiset(created);
  }

  /** Array-index keys come first, in ascending numeric order; every other
      key comes after all of them. */
  lemma OwnKeysIndicesFirst(created: seq<string>)
    ensures forall i, j :: 0 <= i < j < |OwnKeys(created)| && IsArrayIndex(OwnKeys(created)[j]) ==>
              IsArrayIndex(OwnKeys(created)[i]) && IndexValue(OwnKeys(created)[i]) <= IndexValue(OwnKeys(created)[j])
  {
    var ix := IndexKeys(created);
    var sorted := SortByIndex(ix);
    SortByIndexSorted(ix);
    var r := OwnKeys(created);
    forall i | 0 <= i < |sorted|
      ensures IsArrayIndex(sorted[i])
    {
      assert sorted[i] in multiset(ix);
    }
    forall i, j | 0 <= i < j < |r| && IsArrayIndex(r[j])
      ensures IsArrayIndex(r[i]) && IndexValue(r[i]) <= IndexValue(r[j])
    {
      assert r[i] == sorted[i] && r[j] == sorted[j];
    }
  }

  /** Keys that are not array indices are enumerated in creation order. */
  lemma OwnKeysStringOrder(created: seq<string>)
    ensures StringKeys(OwnKeys(created)) == StringKeys(created)
  {
    var sorted := SortByIndex(IndexKeys(created));
    SortByIndexSorted(IndexKeys(created));
    forall i | 0 <= i < |sorted|
      ensures IsArrayIndex(sorted[i])
    {
      assert sorted[i] in multiset(IndexKeys(created));
    }
    StringKeysAppend(sorted, StringKeys(created));
    StringKeysOfIndexKeys(sorted);
    StringKeysOfStringKeys(StringKeys(created));
  }

  /** When no key is an array index, enumeration order is creation order. */
  lemma OwnKeysWithoutIndices(created: seq<string>)
    requires forall i :: 0 <= i < |created| ==> !IsArrayIndex(created[i])
    ensures OwnKeys(created) == created
  {
    StringKeysOfStringKeys(created);
  }

  /** An object created with keys "b", "10", "a", "2" lists them as
      "2", "10", "b", "a". */
  lemma OwnKeysExample()
    ensures OwnKeys(["b", "10", "a", "2"]) == ["2", "10", "b", "a"]
  {
    assert !IsArrayIndex("b") && !IsArrayIndex("a") by {
      assert !IsDigit("b"[0]) && !IsDigit("a"[0]);
    }
    assert DigitsValue("1") == 1 by { assert "1"[..0] == ""; }
    assert DigitsValue("10") == 10 by { assert "10"[..1] == "1"; }
    assert DigitsValue("2") == 2 by { assert "2"[..0] == ""; }
    assert IndexKeys(["b", "10", "a", "2"]) == ["10", "2"];
    assert StringKeys(["b", "10", "a", "2"]) == ["b", "a"];
  }
}
