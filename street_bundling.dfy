/** Bundling of incident reports by street (`group_by_street`): every record
    is filed under the normalised street of its location, and every street
    with at least two records becomes a group.

    The filing functions take the key function as a parameter `keyOf`; the
    application instantiates it with `StreetKey`. */
module StreetBundling {
  import opened StreetNormalize

  /** An incident record: the JSON metadata object of one report, field name
      to text. */
  type Record = map<string, string>

  /** One group of the result: the street key, its records in input order and
      how many there are. */
  datatype StreetGroup = StreetGroup(street: string, incidencias: seq<Record>, count: nat)

  /** `inc.get("Ubicación", inc.get("Ubicacion", ""))`: the accented field
      name wins whenever it is present, even with an empty value. */
  function Location(r: Record): string {
    if "Ubicación" in r then r["Ubicación"]
    else if "Ubicacion" in r then r["Ubicacion"]
    else ""
  }

  /** `loc.split(",")[0]`: the longest prefix of `loc` without a comma. */
  function BeforeComma(loc: string): (r: string)
    ensures r <= loc && ',' !in r
    ensures |r| < |loc| ==> loc[|r|] == ','
  {
    if loc == [] || loc[0] == ',' then []
    else
      var rest := BeforeComma(loc[1..]);
      assert loc == [loc[0]] + loc[1..];
      [loc[0]] + rest
  }

  /** The bucket a record is filed under: the normalised street of its
      location, which is lower-case unless the street holds a symbol that
      `unidecode` spells with capitals. */
  function StreetKey(r: Record): (k: string)
    ensures IsStreetKey(k)
    ensures NoCapitalSymbol(BeforeComma(Location(r))) ==> IsLowerKey(k)
  {
    Normalize(BeforeComma(Location(r)))
  }

  /** The words of a record's key are the words of its cleaned street, less
      a leading street type that has whitespace after it. */
  lemma StreetKeyWords(r: Record)
    ensures var clean := Cleaned(BeforeComma(Location(r)));
      (forall t :: t in PrefixAlternatives ==> !PrefixThenSpace(clean, t)) ==>
        Words(StreetKey(r)) == Words(clean)
    ensures var clean := Cleaned(BeforeComma(Location(r)));
      forall t :: t in PrefixAlternatives && PrefixThenSpace(clean, t) ==>
        t in StreetTypes && Words(clean) == [t] + Words(StreetKey(r))
  {
    NormalizeWords(BeforeComma(Location(r)));
  }

  /** The records of `s` whose key is `k`, in input order. */
  function Bucket(s: seq<Record>, keyOf: Record -> string, k: string): (b: seq<Record>)
    ensures |b| <= |s|
  {
    if s == [] then []
    else
      var front := Bucket(s[..|s| - 1], keyOf, k);
      if keyOf(s[|s| - 1]) == k then front + [s[|s| - 1]] else front
  }

  /** A bucket holds exactly the records with its key, and is empty when no
      record has it. */
  lemma {:induction false} BucketMembers(s: seq<Record>, keyOf: Record -> string, k: string)
    ensures forall r :: r in Bucket(s, keyOf, k) <==> r in s && keyOf(r) == k
    ensures (forall i :: 0 <= i < |s| ==> keyOf(s[i]) != k) ==> Bucket(s, keyOf, k) == []
  {
    if s != [] {
      var p := s[..|s| - 1];
      BucketMembers(p, keyOf, k);
      assert s == p + [s[|s| - 1]];
      assert forall i :: 0 <= i < |p| ==> p[i] == s[i];
    }
  }

  /** The keys of `s` in order of first appearance, each once: the key order
      of the insertion-ordered `buckets` dictionary. */
  function FirstSeenKeys(s: seq<Record>, keyOf: Record -> string): seq<string> {
    if s == [] then []
    else
      var front := FirstSeenKeys(s[..|s| - 1], keyOf);
      var k := keyOf(s[|s| - 1]);
      if k in front then front else front + [k]
  }

  /** The keys listed are exactly the keys that occur, each listed once. */
  lemma {:induction false} FirstSeenKeysFacts(s: seq<Record>, keyOf: Record -> string)
    ensures forall k :: k in FirstSeenKeys(s, keyOf) <==> exists i :: 0 <= i < |s| && keyOf(s[i]) == k
    ensures forall i, j :: 0 <= i < j < |FirstSeenKeys(s, keyOf)| ==>
      FirstSeenKeys(s, keyOf)[i] != FirstSeenKeys(s, keyOf)[j]
  {
    if s != [] {
      var p := s[..|s| - 1];
      FirstSeenKeysFacts(p, keyOf);
      assert forall i :: 0 <= i < |p| ==> p[i] == s[i];
    }
  }

  /** The position of the first record of `s` with key `k`, or `|s|`. */
  function FirstIndex(s: seq<Record>, keyOf: Record -> string, k: string): (n: nat)
    ensures n <= |s|
    ensures n < |s| ==> keyOf(s[n]) == k
    ensures forall i :: 0 <= i < n ==> keyOf(s[i]) != k
  {
    if s == [] then 0
    else if keyOf(s[0]) == k then 0
    else 1 + FirstIndex(s[1..], keyOf, k)
  }

  /** The groups the second loop builds when it visits the keys `ks`. */
  function GroupsOf(s: seq<Record>, keyOf: Record -> string, ks: seq<string>): (gs: seq<StreetGroup>)
    ensures |gs| <= |ks|
  {
    if ks == [] then []
    else
      var front := GroupsOf(s, keyOf, ks[..|ks| - 1]);
      var k := ks[|ks| - 1];
      var b := Bucket(s, keyOf, k);
      if |b| >= 2 then front + [StreetGroup(k, b, |b|)] else front
  }

  /** The group the second loop adds for key `k`, if any. */
  function GroupFor(s: seq<Record>, keyOf: Record -> string, k: string): seq<StreetGroup> {
    var b := Bucket(s, keyOf, k);
    if |b| >= 2 then [StreetGroup(k, b, |b|)] else []
  }

  /** Visiting one more key adds its group, if any, at the end. */
  lemma GroupsOfSnoc(s: seq<Record>, keyOf: Record -> string, ks: seq<string>, k: string)
    ensures GroupsOf(s, keyOf, ks + [k]) == GroupsOf(s, keyOf, ks) + GroupFor(s, keyOf, k)
  {
    assert (ks + [k])[..|ks|] == ks;
  }

  /** Every group is a full bucket of at least two records with its count,
      for a visited key, and every visited key whose bucket has at least two
      records has its group. */
  lemma {:induction false} GroupsOfContents(s: seq<Record>, keyOf: Record -> string, ks: seq<string>)
    ensures forall g :: g in GroupsOf(s, keyOf, ks) ==>
      g.street in ks && g.incidencias == Bucket(s, keyOf, g.street) && g.count == |g.incidencias| >= 2
    ensures forall k :: k in ks && |Bucket(s, keyOf, k)| >= 2 ==>
      StreetGroup(k, Bucket(s, keyOf, k), |Bucket(s, keyOf, k)|) in GroupsOf(s, keyOf, ks)
  {
    if ks != [] {
      var front := ks[..|ks| - 1];
      var k := ks[|ks| - 1];
      GroupsOfContents(s, keyOf, front);
      assert ks == front + [k];
      GroupsOfSnoc(s, keyOf, front, k);
      assert forall x :: x in ks <==> x in front || x == k;
    }
  }

  /** The groups of `s` by `keyOf`, in order of first appearance. */
  function GroupsBy(s: seq<Record>, keyOf: Record -> string): seq<StreetGroup> {
    GroupsOf(s, keyOf, FirstSeenKeys(s, keyOf))
  }

  /** What `group_by_street` returns. */
  function Groups(s: seq<Record>): seq<StreetGroup> {
    GroupsBy(s, StreetKey)
  }

  /** `group_by_street`: the first loop files every record into an
      insertion-ordered dictionary of buckets, the second keeps the buckets
      with at least two records. */
  method GroupByStreet(incidences: seq<Record>) returns (result: seq<StreetGroup>)
    ensures result == Groups(incidences)
  {
    var keys, buckets := FileByStreet(incidences);
    result := KeepCrowded(incidences, StreetKey, keys, buckets);
  }

  /** The first loop of `group_by_street`: files every record under its
      street key, in an insertion-ordered dictionary. */
  method FileByStreet(incidences: seq<Record>) returns (keys: seq<string>, buckets: map<string, seq<Record>>)
    ensures Filed(incidences, StreetKey, keys, buckets)
  {
    keys := [];
    buckets := map[];
    for i := 0 to |incidences|
      invariant Filed(incidences[..i], StreetKey, keys, buckets)
    {
      var inc := incidences[i];
      var loc := Location(inc);
      var streetRaw := BeforeComma(loc);
      var norm := Normalize(streetRaw);
      FileOne(incidences, i, StreetKey, keys, buckets);
      if norm in buckets {
        buckets := buckets[norm := buckets[norm] + [inc]];
      } else {
        keys := keys + [norm];
        buckets := buckets[norm := [inc]];
      }
    }
    assert incidences[..|incidences|] == incidences;
  }

  /** The second loop of `group_by_street`: visits the keys in insertion
      order and keeps every bucket with at least two records; `keyOf` is the
      key function the buckets were filed by. */
  method KeepCrowded(incidences: seq<Record>, keyOf: Record -> string, keys: seq<string>, buckets: map<string, seq<Record>>)
    returns (result: seq<StreetGroup>)
    requires forall k :: k in buckets <==> k in keys
    requires forall k :: k in buckets ==> buckets[k] == Bucket(incidences, keyOf, k)
    ensures result == GroupsOf(incidences, keyOf, keys)
  {
    result := [];
    for j := 0 to |keys|
      invariant result == GroupsOf(incidences, keyOf, keys[..j])
    {
      KeepStep(incidences, keyOf, keys, buckets, j);
      var street := keys[j];
      var items := buckets[street];
      if |items| >= 2 {
        result := result + [StreetGroup(street, items, |items|)];
      }
    }
    assert keys[..|keys|] == keys;
  }

  /** One turn of the second loop adds the group of the next key, if its
      bucket has at least two records. */
  lemma KeepStep(incidences: seq<Record>, keyOf: Record -> string, keys: seq<string>,
                 buckets: map<string, seq<Record>>, j: nat)
    requires j < |keys|
    requires forall k :: k in buckets <==> k in keys
    requires forall k :: k in buckets ==> buckets[k] == Bucket(incidences, keyOf, k)
    ensures var items := buckets[keys[j]];
      GroupsOf(incidences, keyOf, keys[..j + 1]) == GroupsOf(incidences, keyOf, keys[..j])
        + if |items| >= 2 then [StreetGroup(keys[j], items, |items|)] else []
  {
    assert keys[..j + 1] == keys[..j] + [keys[j]];
    GroupsOfSnoc(incidences, keyOf, keys[..j], keys[j]);
  }

  /** `keys` and `buckets` are what the first loop has built from `s`. */
  ghost predicate Filed(s: seq<Record>, keyOf: Record -> string, keys: seq<string>, buckets: map<string, seq<Record>>) {
    && keys == FirstSeenKeys(s, keyOf)
    && (forall k :: k in buckets <==> k in keys)
    && (forall k :: k in buckets ==> buckets[k] == Bucket(s, keyOf, k))
  }

  lemma FileOne(s: seq<Record>, i: nat, keyOf: Record -> string, keys: seq<string>, buckets: map<string, seq<Record>>)
    requires i < |s| && Filed(s[..i], keyOf, keys, buckets)
    ensures keyOf(s[i]) in buckets ==>
      Filed(s[..i + 1], keyOf, keys, buckets[keyOf(s[i]) := buckets[keyOf(s[i])] + [s[i]]])
    ensures keyOf(s[i]) !in buckets ==>
      Filed(s[..i + 1], keyOf, keys + [keyOf(s[i])], buckets[keyOf(s[i]) := [s[i]]])
  {
    if keyOf(s[i]) in buckets {
      FileIntoOld(s, i, keyOf, keys, buckets);
    } else {
      FileIntoNew(s, i, keyOf, keys, buckets);
    }
  }

  lemma FileIntoOld(s: seq<Record>, i: nat, keyOf: Record -> string, keys: seq<string>, buckets: map<string, seq<Record>>)
    requires i < |s| && Filed(s[..i], keyOf, keys, buckets) && keyOf(s[i]) in buckets
    ensures Filed(s[..i + 1], keyOf, keys, buckets[keyOf(s[i]) := buckets[keyOf(s[i])] + [s[i]]])
  {
    var k0 := keyOf(s[i]);
    var nb := buckets[k0 := buckets[k0] + [s[i]]];
    SeenKeyKeepsKeys(s, i, keyOf, keys);
    ExtendBucket(s, i, keyOf, keys, buckets, nb);
    FiledOf(s[..i + 1], keyOf, keys, nb);
  }

  lemma FiledOf(s: seq<Record>, keyOf: Record -> string, keys: seq<string>, buckets: map<string, seq<Record>>)
    requires keys == FirstSeenKeys(s, keyOf)
    requires forall k :: k in buckets <==> k in keys
    requires forall k :: k in buckets ==> buckets[k] == Bucket(s, keyOf, k)
    ensures Filed(s, keyOf, keys, buckets)
  {
  }

  lemma SeenKeyKeepsKeys(s: seq<Record>, i: nat, keyOf: Record -> string, keys: seq<string>)
    requires i < |s| && keys == FirstSeenKeys(s[..i], keyOf) && keyOf(s[i]) in keys
    ensures FirstSeenKeys(s[..i + 1], keyOf) == keys
  {
    FilingKeys(s, i, keyOf);
  }

  /** Appending record `i` to its existing bucket gives the buckets of the
      first `i + 1` records. */
  lemma ExtendBucket(s: seq<Record>, i: nat, keyOf: Record -> string, keys: seq<string>,
                     buckets: map<string, seq<Record>>, nb: map<string, seq<Record>>)
    requires i < |s| && keyOf(s[i]) in buckets
    requires forall k :: k in buckets <==> k in keys
    requires forall k :: k in buckets ==> buckets[k] == Bucket(s[..i], keyOf, k)
    requires nb == buckets[keyOf(s[i]) := buckets[keyOf(s[i])] + [s[i]]]
    ensures forall k :: k in nb <==> k in keys
    ensures forall k :: k in nb ==> nb[k] == Bucket(s[..i + 1], keyOf, k)
  {
    forall k | k in nb
      ensures nb[k] == Bucket(s[..i + 1], keyOf, k)
    {
      FilingBucket(s, i, keyOf, k);
      if k == keyOf(s[i]) {
        assert nb[k] == Bucket(s[..i], keyOf, k) + [s[i]];
      } else {
        assert nb[k] == buckets[k];
      }
    }
  }

  lemma FileIntoNew(s: seq<Record>, i: nat, keyOf: Record -> string, keys: seq<string>, buckets: map<string, seq<Record>>)
    requires i < |s| && Filed(s[..i], keyOf, keys, buckets) && keyOf(s[i]) !in buckets
    ensures Filed(s[..i + 1], keyOf, keys + [keyOf(s[i])], buckets[keyOf(s[i]) := [s[i]]])
  {
    FilingKeys(s, i, keyOf);
    UnseenKeyEmpty(s[..i], keyOf, keyOf(s[i]));
    var k0 := keyOf(s[i]);
    var nb := buckets[k0 := [s[i]]];
    forall k | k in nb
      ensures nb[k] == Bucket(s[..i + 1], keyOf, k)
    {
      FilingBucket(s, i, keyOf, k);
    }
  }

  /** Filing record `i` of `s`: it joins the end of its key's bucket, and its
      key joins the key list if it is new. */
  lemma FilingKeys(s: seq<Record>, i: nat, keyOf: Record -> string)
    requires i < |s|
    ensures FirstSeenKeys(s[..i + 1], keyOf) ==
      if keyOf(s[i]) in FirstSeenKeys(s[..i], keyOf) then FirstSeenKeys(s[..i], keyOf)
      else FirstSeenKeys(s[..i], keyOf) + [keyOf(s[i])]
  {
    assert s[..i + 1][..i] == s[..i];
  }

  lemma FilingBucket(s: seq<Record>, i: nat, keyOf: Record -> string, k: string)
    requires i < |s|
    ensures Bucket(s[..i + 1], keyOf, k)
            == if keyOf(s[i]) == k then Bucket(s[..i], keyOf, k) + [s[i]] else Bucket(s[..i], keyOf, k)
  {
    assert s[..i + 1][..i] == s[..i];
  }

  /** A key not yet seen has an empty bucket. */
  lemma UnseenKeyEmpty(s: seq<Record>, keyOf: Record -> string, k: string)
    requires k !in FirstSeenKeys(s, keyOf)
    ensures Bucket(s, keyOf, k) == []
  {
    FirstSeenKeysFacts(s, keyOf);
    BucketMembers(s, keyOf, k);
    assert forall j :: 0 <= j < |s| ==> keyOf(s[j]) != k;
  }

  /** Every group has a count equal to its number of records, at least two,
      and holds exactly the records filed under its street; every street
      with two or more records has its group; no street has two groups; and
      no input gives no groups. */
  lemma GroupsWellFormed(s: seq<Record>, keyOf: Record -> string)
    ensures forall g :: g in GroupsBy(s, keyOf) ==>
      g.count == |g.incidencias| >= 2 && g.incidencias == Bucket(s, keyOf, g.street)
    ensures forall r :: r in s && |Bucket(s, keyOf, keyOf(r))| >= 2 ==>
      StreetGroup(keyOf(r), Bucket(s, keyOf, keyOf(r)), |Bucket(s, keyOf, keyOf(r))|) in GroupsBy(s, keyOf)
    ensures forall i, j :: 0 <= i < j < |GroupsBy(s, keyOf)| ==>
      GroupsBy(s, keyOf)[i].street != GroupsBy(s, keyOf)[j].street
    ensures s == [] ==> GroupsBy(s, keyOf) == []
  {
    var ks := FirstSeenKeys(s, keyOf);
    FirstSeenKeysFacts(s, keyOf);
    forall r | r in s
      ensures keyOf(r) in ks
    {
      var i :| 0 <= i < |s| && s[i] == r;
    }
    GroupsOfContents(s, keyOf, ks);
    GroupsInFirstSeenOrder(s, keyOf);
  }

  /** The keys are listed in order of first appearance. */
  lemma {:induction false} FirstSeenKeysOrdered(s: seq<Record>, keyOf: Record -> string)
    ensures forall k :: k in FirstSeenKeys(s, keyOf) ==> FirstIndex(s, keyOf, k) < |s|
    ensures OrderedByFirstIndex(s, keyOf, FirstSeenKeys(s, keyOf))
  {
    SeenKeysIndexed(s, keyOf);
    if s != [] {
      var p := s[..|s| - 1];
      var x := s[|s| - 1];
      FirstSeenKeysOrdered(p, keyOf);
      assert s == p + [x];
      var ks := FirstSeenKeys(p, keyOf);
      forall k | k in ks
        ensures FirstIndex(s, keyOf, k) == FirstIndex(p, keyOf, k)
      {
        FirstIndexExtend(p, x, keyOf, k);
      }
      OrderedTransfer(p, s, keyOf, ks);
      var k := keyOf(x);
      if k !in ks {
        FirstIndexExtend(p, x, keyOf, k);
        OrderedSnocKey(s, keyOf, ks, k);
      }
    }
  }

  /** Keys ordered in `p` stay ordered in `s` when their first positions
      are the same in both. */
  lemma OrderedTransfer(p: seq<Record>, s: seq<Record>, keyOf: Record -> string, ks: seq<string>)
    requires OrderedByFirstIndex(p, keyOf, ks)
    requires forall k :: k in ks ==> FirstIndex(s, keyOf, k) == FirstIndex(p, keyOf, k)
    ensures OrderedByFirstIndex(s, keyOf, ks)
  {
    forall i, j | 0 <= i < j < |ks|
      ensures FirstIndex(s, keyOf, ks[i]) < FirstIndex(s, keyOf, ks[j])
    {
      assert ks[i] in ks && ks[j] in ks;
    }
  }

  /** A key appended after keys that all appear before it keeps the order. */
  lemma OrderedSnocKey(s: seq<Record>, keyOf: Record -> string, ks: seq<string>, k: string)
    requires OrderedByFirstIndex(s, keyOf, ks)
    requires forall x :: x in ks ==> FirstIndex(s, keyOf, x) < FirstIndex(s, keyOf, k)
    ensures OrderedByFirstIndex(s, keyOf, ks + [k])
  {
    var all := ks + [k];
    forall i, j | 0 <= i < j < |all|
      ensures FirstIndex(s, keyOf, all[i]) < FirstIndex(s, keyOf, all[j])
    {
      assert all[i] == ks[i] && ks[i] in ks;
      if j < |ks| {
        assert all[j] == ks[j];
      }
    }
  }

  lemma SeenKeysIndexed(s: seq<Record>, keyOf: Record -> string)
    ensures forall k :: k in FirstSeenKeys(s, keyOf) ==> FirstIndex(s, keyOf, k) < |s|
  {
    FirstSeenKeysFacts(s, keyOf);
    forall k | k in FirstSeenKeys(s, keyOf)
      ensures FirstIndex(s, keyOf, k) < |s|
    {
      var i :| 0 <= i < |s| && keyOf(s[i]) == k;
    }
  }

  lemma FirstIndexExtend(p: seq<Record>, x: Record, keyOf: Record -> string, k: string)
    ensures FirstIndex(p, keyOf, k) < |p| ==> FirstIndex(p + [x], keyOf, k) == FirstIndex(p, keyOf, k)
    ensures k !in FirstSeenKeys(p, keyOf) && keyOf(x) == k ==> FirstIndex(p + [x], keyOf, k) == |p|
  {
    var s := p + [x];
    var n := FirstIndex(p, keyOf, k);
    assert forall i :: 0 <= i < |p| ==> s[i] == p[i];
    if n < |p| {
      assert keyOf(s[n]) == k;
    }
    if k !in FirstSeenKeys(p, keyOf) && keyOf(x) == k {
      FirstSeenKeysFacts(p, keyOf);
      assert forall i :: 0 <= i < |p| ==> keyOf(s[i]) != k;
      assert s[|p|] == x;
    }
  }

  /** The keys `ks` are listed in order of first appearance in `s`. */
  predicate OrderedByFirstIndex(s: seq<Record>, keyOf: Record -> string, ks: seq<string>) {
    forall i, j :: 0 <= i < j < |ks| ==> FirstIndex(s, keyOf, ks[i]) < FirstIndex(s, keyOf, ks[j])
  }

  /** Groups appear in the order in which their street first appears in the
      input. */
  lemma GroupsInFirstSeenOrder(s: seq<Record>, keyOf: Record -> string)
    ensures forall i, j :: 0 <= i < j < |GroupsBy(s, keyOf)| ==>
      FirstIndex(s, keyOf, GroupsBy(s, keyOf)[i].street) < FirstIndex(s, keyOf, GroupsBy(s, keyOf)[j].street)
  {
    FirstSeenKeysOrdered(s, keyOf);
    GroupsOfOrdered(s, keyOf, FirstSeenKeys(s, keyOf));
    assert GroupsOrdered(s, keyOf, GroupsBy(s, keyOf));
  }

  lemma {:induction false} GroupsOfOrdered(s: seq<Record>, keyOf: Record -> string, ks: seq<string>)
    requires OrderedByFirstIndex(s, keyOf, ks)
    ensures GroupsOrdered(s, keyOf, GroupsOf(s, keyOf, ks))
  {
    if ks != [] {
      var front := ks[..|ks| - 1];
      var last := ks[|ks| - 1];
      assert ks == front + [last];
      assert OrderedByFirstIndex(s, keyOf, front);
      GroupsOfOrdered(s, keyOf, front);
      GroupStreets(s, keyOf, front);
      GroupsOfSnoc(s, keyOf, front, last);
      var gs := GroupsOf(s, keyOf, front);
      forall g | g in gs
        ensures FirstIndex(s, keyOf, g.street) < FirstIndex(s, keyOf, last)
      {
        var a :| 0 <= a < |front| && front[a] == g.street;
        assert ks[a] == g.street;
      }
      var b := Bucket(s, keyOf, last);
      if |b| >= 2 {
        OrderedSnoc(s, keyOf, gs, StreetGroup(last, b, |b|));
      } else {
        assert gs + [] == gs;
      }
    }
  }

  lemma {:induction false} GroupStreets(s: seq<Record>, keyOf: Record -> string, ks: seq<string>)
    ensures forall g :: g in GroupsOf(s, keyOf, ks) ==> g.street in ks
  {
    if ks != [] {
      var front := ks[..|ks| - 1];
      var k := ks[|ks| - 1];
      GroupStreets(s, keyOf, front);
      assert ks == front + [k];
      GroupsOfSnoc(s, keyOf, front, k);
      assert forall x :: x in front ==> x in ks;
    }
  }

  /** The streets of `gs` are in order of first appearance in `s`. */
  predicate GroupsOrdered(s: seq<Record>, keyOf: Record -> string, gs: seq<StreetGroup>) {
    forall i, j :: 0 <= i < j < |gs| ==> FirstIndex(s, keyOf, gs[i].street) < FirstIndex(s, keyOf, gs[j].street)
  }

  lemma OrderedSnoc(s: seq<Record>, keyOf: Record -> string, gs: seq<StreetGroup>, g: StreetGroup)
    requires GroupsOrdered(s, keyOf, gs)
    requires forall x :: x in gs ==> FirstIndex(s, keyOf, x.street) < FirstIndex(s, keyOf, g.street)
    ensures GroupsOrdered(s, keyOf, gs + [g])
  {
    var all := gs + [g];
    forall i, j | 0 <= i < j < |all|
      ensures FirstIndex(s, keyOf, all[i].street) < FirstIndex(s, keyOf, all[j].street)
    {
      assert all[i] == gs[i] && gs[i] in gs;
      if j < |gs| {
        assert all[j] == gs[j];
      }
    }
  }

  /** All records of the buckets of `gs`, group after group. */
  function Flatten(gs: seq<StreetGroup>): seq<Record> {
    if gs == [] then [] else Flatten(gs[..|gs| - 1]) + gs[|gs| - 1].incidencias
  }

  /** The sum of the counts of `gs`. */
  function SumCounts(gs: seq<StreetGroup>): nat {
    if gs == [] then 0 else SumCounts(gs[..|gs| - 1]) + gs[|gs| - 1].count
  }

  /** The records of `t` whose bucket in `s` has fewer than two records. */
  function SingletonsOf(t: seq<Record>, s: seq<Record>, keyOf: Record -> string): seq<Record> {
    if t == [] then []
    else
      var front := SingletonsOf(t[..|t| - 1], s, keyOf);
      var r := t[|t| - 1];
      if |Bucket(s, keyOf, keyOf(r))| < 2 then front + [r] else front
  }

  lemma {:induction false} SingletonsMembers(t: seq<Record>, s: seq<Record>, keyOf: Record -> string)
    ensures forall r :: r in SingletonsOf(t, s, keyOf) <==> r in t && |Bucket(s, keyOf, keyOf(r))| < 2
  {
    if t != [] {
      var p := t[..|t| - 1];
      SingletonsMembers(p, s, keyOf);
      assert t == p + [t[|t| - 1]];
    }
  }

  /** The records grouping leaves out: those alone on their street. */
  function Dropped(s: seq<Record>, keyOf: Record -> string): seq<Record> {
    SingletonsOf(s, s, keyOf)
  }

  /** The records left out are exactly those alone on their street. */
  lemma DroppedMembers(s: seq<Record>, keyOf: Record -> string)
    ensures forall r :: r in Dropped(s, keyOf) <==> r in s && |Bucket(s, keyOf, keyOf(r))| == 1
  {
    SingletonsMembers(s, s, keyOf);
    forall r | r in s
      ensures |Bucket(s, keyOf, keyOf(r))| >= 1
    {
      BucketMembers(s, keyOf, keyOf(r));
      assert r in Bucket(s, keyOf, keyOf(r));
    }
  }

  lemma {:induction false} BucketMultiplicity(s: seq<Record>, keyOf: Record -> string, k: string, r: Record)
    ensures multiset(Bucket(s, keyOf, k))[r] == if keyOf(r) == k then multiset(s)[r] else 0
  {
    if s != [] {
      var p := s[..|s| - 1];
      BucketMultiplicity(p, keyOf, k, r);
      assert s == p + [s[|s| - 1]];
    }
  }

  lemma {:induction false} SingletonsMultiplicity(t: seq<Record>, s: seq<Record>, keyOf: Record -> string, r: Record)
    ensures multiset(SingletonsOf(t, s, keyOf))[r] ==
      if |Bucket(s, keyOf, keyOf(r))| < 2 then multiset(t)[r] else 0
  {
    if t != [] {
      var p := t[..|t| - 1];
      SingletonsMultiplicity(p, s, keyOf, r);
      assert t == p + [t[|t| - 1]];
    }
  }

  lemma {:induction false} GroupsOfMultiplicity(s: seq<Record>, keyOf: Record -> string, ks: seq<string>, r: Record)
    requires forall i, j :: 0 <= i < j < |ks| ==> ks[i] != ks[j]
    ensures multiset(Flatten(GroupsOf(s, keyOf, ks)))[r] ==
      if keyOf(r) in ks && |Bucket(s, keyOf, keyOf(r))| >= 2 then multiset(s)[r] else 0
  {
    if ks != [] {
      var front := ks[..|ks| - 1];
      var k := ks[|ks| - 1];
      assert ks == front + [k];
      GroupsOfMultiplicity(s, keyOf, front, r);
      BucketMultiplicity(s, keyOf, k, r);
      GroupsOfSnoc(s, keyOf, front, k);
      assert forall x :: x in ks <==> x in front || x == k;
      assert k !in front;
      var gs := GroupsOf(s, keyOf, front);
      var b := Bucket(s, keyOf, k);
      if |b| >= 2 {
        FlattenSnoc(gs, StreetGroup(k, b, |b|));
      } else {
        assert gs + [] == gs;
      }
    }
  }

  lemma FlattenSnoc(gs: seq<StreetGroup>, g: StreetGroup)
    ensures Flatten(gs + [g]) == Flatten(gs) + g.incidencias
  {
    assert (gs + [g])[..|gs|] == gs;
  }

  lemma {:induction false} FlattenCounts(gs: seq<StreetGroup>)
    requires forall g :: g in gs ==> g.count == |g.incidencias|
    ensures SumCounts(gs) == |Flatten(gs)|
  {
    if gs != [] {
      FlattenCounts(gs[..|gs| - 1]);
    }
  }

  /** The grouped records and the dropped ones together are the input: no
      record is lost, duplicated or altered, and the counts add up. */
  lemma GroupsPartition(s: seq<Record>, keyOf: Record -> string)
    ensures multiset(Flatten(GroupsBy(s, keyOf))) + multiset(Dropped(s, keyOf)) == multiset(s)
    ensures SumCounts(GroupsBy(s, keyOf)) + |Dropped(s, keyOf)| == |s|
  {
    var flat, dropped := multiset(Flatten(GroupsBy(s, keyOf))), multiset(Dropped(s, keyOf));
    forall r
      ensures (flat + dropped)[r] == multiset(s)[r]
    {
      PartitionAt(s, keyOf, r);
    }
    assert flat + dropped == multiset(s);
    GroupsWellFormed(s, keyOf);
    FlattenCounts(GroupsBy(s, keyOf));
    assert |flat + dropped| == |Flatten(GroupsBy(s, keyOf))| + |Dropped(s, keyOf)|;
  }

  /** Each record occurs as often among the grouped and the dropped records
      together as in the input. */
  lemma PartitionAt(s: seq<Record>, keyOf: Record -> string, r: Record)
    ensures multiset(Flatten(GroupsBy(s, keyOf)))[r] + multiset(Dropped(s, keyOf))[r] == multiset(s)[r]
  {
    var ks := FirstSeenKeys(s, keyOf);
    FirstSeenKeysFacts(s, keyOf);
    GroupsOfMultiplicity(s, keyOf, ks, r);
    SingletonsMultiplicity(s, s, keyOf, r);
    if r in s {
      var i :| 0 <= i < |s| && s[i] == r;
      assert keyOf(r) in ks;
    }
  }

  /** Filing keeps input order: the bucket of a concatenation is the bucket of
      the first part followed by the bucket of the second. */
  lemma {:induction false} BucketAppend(a: seq<Record>, b: seq<Record>, keyOf: Record -> string, k: string)
    ensures Bucket(a + b, keyOf, k) == Bucket(a, keyOf, k) + Bucket(b, keyOf, k)
  {
    if b != [] {
      var p := b[..|b| - 1];
      BucketAppend(a, p, keyOf, k);
      assert (a + b)[..|a + b| - 1] == a + p;
    } else {
      assert a + b == a;
    }
  }

  /** The key is taken from the text before the first comma of the location;
      the unaccented field name is read only when the accented one is
      missing, and an empty accented field still wins. */
  lemma ExampleStreetKeys()
    ensures StreetKey(map["Ubicacion" := "Avda. Independencia, 12"]) == "independencia"
    ensures StreetKey(map["Ubicación" := "", "Ubicacion" := "Avda. Independencia, 12"]) == ""
  {
    ExampleFallbackField(map["Ubicacion" := "Avda. Independencia, 12"], "Avda. Independencia, 12");
    ExampleEmptyField(map["Ubicación" := "", "Ubicacion" := "Avda. Independencia, 12"]);
  }

  lemma ExampleFallbackField(r: Record, loc: string)
    requires r == map["Ubicacion" := loc] && loc == "Avda. Independencia, 12"
    ensures StreetKey(r) == "independencia"
  {
    var street, key := "Avda. Independencia", "independencia";
    assert Location(r) == loc;
    ExampleBeforeComma(loc, street);
    ExampleAvdaIndependencia(street, key);
    StreetKeyByStages(r, loc, street, key);
  }

  lemma StreetKeyByStages(r: Record, loc: string, street: string, key: string)
    requires Location(r) == loc && BeforeComma(loc) == street && Normalize(street) == key
    ensures StreetKey(r) == key
  {
  }

  lemma ExampleBeforeComma(loc: string, street: string)
    requires loc == "Avda. Independencia, 12" && street == "Avda. Independencia"
    ensures BeforeComma(loc) == street
  {
    assert loc == street + ", 12";
    assert loc[|street|] == ',' && ',' !in street;
  }

  lemma ExampleEmptyField(r: Record)
    requires "Ubicación" in r && r["Ubicación"] == ""
    ensures StreetKey(r) == ""
  {
    assert Location(r) == "";
    ExampleEmptyKey("");
  }

  lemma ExampleEmptyKey(raw: string)
    requires raw == ""
    ensures Normalize(raw) == ""
  {
    NormalizeUnstripped(raw, raw, raw, raw);
  }
}
