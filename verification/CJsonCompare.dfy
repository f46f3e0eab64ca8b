/** `cJSON_Compare` on separately allocated trees, and exactly which pairs it accepts. */
module CJsonCompare {
  import opened Collections
  import opened CJsonTree
  import CJsonGrammar
  import CJsonAcceptance
  import CJsonText
  import CJsonRoundTrip

  function ToLower(b: Byte): Byte {
    if 65 <= b <= 90 then b + 32 else b
  }

  /** The form under which two keys are the same key. */
  function Fold(key: Bytes, caseSensitive: bool): Bytes {
    var k := UpToNul(key);
    if caseSensitive then k else seq(|k|, i requires 0 <= i < |k| => ToLower(k[i]))
  }

  /** The same letter in two cases. */
  predicate CasePair(x: Byte, y: Byte) {
    (65 <= x <= 90 && y == x + 32) || (65 <= y <= 90 && x == y + 32)
  }

  /** Two keys are the same: as C strings byte by byte, or letter by letter whatever the case. */
  predicate SameKey(k: Bytes, l: Bytes, caseSensitive: bool) {
    var a, b := UpToNul(k), UpToNul(l);
    && |a| == |b|
    && forall i :: 0 <= i < |a| ==> a[i] == b[i] || (!caseSensitive && CasePair(a[i], b[i]))
  }

  /** Keys fold alike exactly if they are the same. */
  lemma FoldMeans(k: Bytes, l: Bytes, caseSensitive: bool)
    ensures Fold(k, caseSensitive) == Fold(l, caseSensitive) <==> SameKey(k, l, caseSensitive)
  {
    var a, b, f, g := UpToNul(k), UpToNul(l), Fold(k, caseSensitive), Fold(l, caseSensitive);
    if |a| == |b| && !caseSensitive {
      assert f == g <==> forall i :: 0 <= i < |a| ==> f[i] == g[i];
      forall i | 0 <= i < |a| ensures f[i] == g[i] <==> a[i] == b[i] || CasePair(a[i], b[i]) {
      }
    }
  }

  lemma SameKeyTurns(k: Bytes, l: Bytes, caseSensitive: bool)
    ensures SameKey(k, l, caseSensitive) == SameKey(l, k, caseSensitive) && SameKey(k, k, caseSensitive)
  {
    hide SameKey, Fold;
    FoldMeans(k, l, caseSensitive);
    FoldMeans(l, k, caseSensitive);
    FoldMeans(k, k, caseSensitive);
  }

  /** `get_object_item`: the first member with that key, or the number of members. */
  function Find(members: seq<Member>, key: Bytes, caseSensitive: bool): (r: nat)
    ensures r <= |members|
    ensures r < |members| ==> Fold(members[r].key, caseSensitive) == Fold(key, caseSensitive)
    ensures forall i :: 0 <= i < r ==> Fold(members[i].key, caseSensitive) != Fold(key, caseSensitive)
  {
    if members == [] || Fold(members[0].key, caseSensitive) == Fold(key, caseSensitive) then 0
    else 1 + Find(members[1..], key, caseSensitive)
  }

  /** It is the first member whose key is the same. */
  lemma FindMeans(members: seq<Member>, key: Bytes, caseSensitive: bool)
    ensures
      var r := Find(members, key, caseSensitive);
      && (r < |members| ==> SameKey(members[r].key, key, caseSensitive))
      && forall i :: 0 <= i < r ==> !SameKey(members[i].key, key, caseSensitive)
  {
    hide Find, Fold, SameKey;
    forall i | 0 <= i < |members|
      ensures Fold(members[i].key, caseSensitive) == Fold(key, caseSensitive)
         <==> SameKey(members[i].key, key, caseSensitive)
    {
      FoldMeans(members[i].key, key, caseSensitive);
    }
  }

  // ---------- the comparer ----------

  function Size(v: Json): nat
    decreases v, 1
  {
    match v
    case Array(items) => 1 + ItemsSize(items)
    case Object(members) => 1 + MembersSize(members)
    case _ => 1
  }

  function ItemsSize(items: seq<Json>): (r: nat)
    ensures forall i :: 0 <= i < |items| ==> Size(items[i]) <= r
    decreases items, 0
  {
    if items == [] then 0 else Size(items[0]) + ItemsSize(items[1..])
  }

  function MembersSize(members: seq<Member>): (r: nat)
    ensures forall i :: 0 <= i < |members| ==> Size(members[i].value) <= r
    decreases members, 0
  {
    if members == [] then 0 else Size(members[0].value) + MembersSize(members[1..])
  }

  /** Arrays element by element; objects by looking every member of each up in the other. */
  predicate Compare(a: Json, b: Json, caseSensitive: bool)
    decreases Size(a) + Size(b), 1
  {
    match (a, b)
    case (Null, Null) => true
    case (False, False) => true
    case (True, True) => true
    case (Number(x), Number(y)) => x == y
    case (String(s), String(t)) => UpToNul(s) == UpToNul(t)
    case (Array(xs), Array(ys)) =>
      |xs| == |ys| && forall i :: 0 <= i < |xs| ==> Compare(xs[i], ys[i], caseSensitive)
    case (Object(ms), Object(ns)) =>
      CompareMembers(ms, ns, caseSensitive) && CompareMembers(ns, ms, caseSensitive)
    case _ => false
  }

  predicate CompareMembers(ms: seq<Member>, ns: seq<Member>, caseSensitive: bool)
    decreases MembersSize(ms) + MembersSize(ns) + 2, 0
  {
    forall i :: 0 <= i < |ms| ==>
      var j := Find(ns, ms[i].key, caseSensitive);
      j < |ns| && Compare(ms[i].value, ns[j].value, caseSensitive)
  }

  // ---------- what it decides ----------

  /** A tree with its objects turned into finite maps: member order is gone. */
  datatype Canon =
    | CNull
    | CFalse
    | CTrue
    | CNumber(value: real)
    | CString(text: Bytes)
    | CArray(items: seq<Canon>)
    | CObject(members: map<Bytes, Canon>)

  function CanonOf(v: Json, caseSensitive: bool): Canon
    decreases v, 1
  {
    match v
    case Null => CNull
    case False => CFalse
    case True => CTrue
    case Number(x) => CNumber(x)
    case String(s) => CString(UpToNul(s))
    case Array(items) => CArray(ItemsCanon(items, caseSensitive))
    case Object(members) => CObject(MembersCanon(members, caseSensitive))
  }

  function ItemsCanon(items: seq<Json>, caseSensitive: bool): (r: seq<Canon>)
    ensures |r| == |items| && forall i :: 0 <= i < |items| ==> r[i] == CanonOf(items[i], caseSensitive)
    decreases items, 0
  {
    if items == [] then [] else [CanonOf(items[0], caseSensitive)] + ItemsCanon(items[1..], caseSensitive)
  }

  /** The first member with a key wins. */
  function MembersCanon(members: seq<Member>, caseSensitive: bool): map<Bytes, Canon>
    decreases members, 0
  {
    if members == [] then map[]
    else
      MembersCanon(members[1..], caseSensitive)
        [Fold(members[0].key, caseSensitive) := CanonOf(members[0].value, caseSensitive)]
  }

  lemma NoMember(key: Bytes, caseSensitive: bool)
    ensures Find([], key, caseSensitive) == 0 && MembersCanon([], caseSensitive) == map[]
  {
  }

  lemma FindFirst(members: seq<Member>, key: Bytes, caseSensitive: bool)
    requires members != []
    ensures Find(members, key, caseSensitive) ==
      if Fold(members[0].key, caseSensitive) == Fold(key, caseSensitive) then 0
      else 1 + Find(members[1..], key, caseSensitive)
  {
    hide Fold, SameKey;
  }

  lemma {:induction false} CanonLookup(members: seq<Member>, key: Bytes, caseSensitive: bool)
    ensures
      var j, m := Find(members, key, caseSensitive), MembersCanon(members, caseSensitive);
      && (Fold(key, caseSensitive) in m <==> j < |members|)
      && (j < |members| ==> m[Fold(key, caseSensitive)] == CanonOf(members[j].value, caseSensitive))
    decreases |members|
  {
    hide Find, Fold, SameKey, CanonOf;
    if members == [] {
      NoMember(key, caseSensitive);
    } else {
      FindFirst(members, key, caseSensitive);
      CanonLookup(members[1..], key, caseSensitive);
    }
  }

  /** Every key of the map is the folded key of some member. */
  lemma {:induction false} CanonKeys(members: seq<Member>, caseSensitive: bool, k: Bytes) returns (i: nat)
    requires k in MembersCanon(members, caseSensitive)
    ensures i < |members| && Fold(members[i].key, caseSensitive) == k
  {
    if Fold(members[0].key, caseSensitive) == k {
      i := 0;
    } else {
      i := CanonKeys(members[1..], caseSensitive, k);
      i := i + 1;
    }
  }

  lemma {:induction false} FindByFold(members: seq<Member>, k: Bytes, l: Bytes, caseSensitive: bool)
    requires Fold(k, caseSensitive) == Fold(l, caseSensitive)
    ensures Find(members, k, caseSensitive) == Find(members, l, caseSensitive)
  {
    if members != [] {
      FindByFold(members[1..], k, l, caseSensitive);
    }
  }

  /** In every object of the tree, members that share a key agree on the value. */
  ghost predicate Agreeing(v: Json, caseSensitive: bool) {
    match v
    case Array(items) => forall i :: 0 <= i < |items| ==> Agreeing(items[i], caseSensitive)
    case Object(members) =>
      forall i :: 0 <= i < |members| ==>
        Agreeing(members[i].value, caseSensitive) && AgreesWithFirst(members, i, caseSensitive)
    case _ => true
  }

  ghost predicate AgreesWithFirst(members: seq<Member>, i: nat, caseSensitive: bool)
    requires i < |members|
  {
    var j := Find(members, members[i].key, caseSensitive);
    j < |members| && CanonOf(members[i].value, caseSensitive) == CanonOf(members[j].value, caseSensitive)
  }

  /** No object of the tree has a key twice. */
  ghost predicate DistinctKeys(v: Json, caseSensitive: bool) {
    match v
    case Array(items) => forall i :: 0 <= i < |items| ==> DistinctKeys(items[i], caseSensitive)
    case Object(members) =>
      && (forall i :: 0 <= i < |members| ==> DistinctKeys(members[i].value, caseSensitive))
      && KeysDiffer(members, caseSensitive)
    case _ => true
  }

  ghost predicate KeysDiffer(ms: seq<Member>, caseSensitive: bool) {
    forall i, j :: 0 <= i < j < |ms| ==> !SameKey(ms[i].key, ms[j].key, caseSensitive)
  }

  lemma {:induction false} DistinctKeysAgree(v: Json, caseSensitive: bool)
    requires DistinctKeys(v, caseSensitive)
    ensures Agreeing(v, caseSensitive)
  {
    match v
    case Array(items) =>
      forall i | 0 <= i < |items| ensures Agreeing(items[i], caseSensitive) {
        DistinctKeysAgree(items[i], caseSensitive);
      }
    case Object(members) =>
      forall i | 0 <= i < |members|
        ensures Agreeing(members[i].value, caseSensitive) && AgreesWithFirst(members, i, caseSensitive)
      {
        DistinctKeysAgree(members[i].value, caseSensitive);
        SameKeyTurns(members[i].key, members[i].key, caseSensitive);
        FindTheOne(members, members[i].key, i, caseSensitive);
      }
    case _ =>
  }

  /** The exact meaning, on all trees and for both kinds of key comparison. */
  lemma {:induction false} CompareDecides(a: Json, b: Json, caseSensitive: bool)
    ensures Compare(a, b, caseSensitive)
       <==> Agreeing(a, caseSensitive) && Agreeing(b, caseSensitive)
            && CanonOf(a, caseSensitive) == CanonOf(b, caseSensitive)
    decreases Size(a) + Size(b), 2
  {
    match (a, b)
    case (Array(xs), Array(ys)) => ArraysDecide(xs, ys, caseSensitive);
    case (Object(ms), Object(ns)) => ObjectsDecide(ms, ns, caseSensitive);
    case _ =>
  }

  lemma {:induction false} ArraysDecide(xs: seq<Json>, ys: seq<Json>, caseSensitive: bool)
    ensures Compare(Array(xs), Array(ys), caseSensitive)
       <==> Agreeing(Array(xs), caseSensitive) && Agreeing(Array(ys), caseSensitive)
            && CanonOf(Array(xs), caseSensitive) == CanonOf(Array(ys), caseSensitive)
    decreases ItemsSize(xs) + ItemsSize(ys) + 2, 0
  {
    if |xs| == |ys| {
      var p, q := ItemsCanon(xs, caseSensitive), ItemsCanon(ys, caseSensitive);
      assert p == q <==> forall i :: 0 <= i < |xs| ==> p[i] == q[i];
      forall i | 0 <= i < |xs|
        ensures Compare(xs[i], ys[i], caseSensitive)
           <==> Agreeing(xs[i], caseSensitive) && Agreeing(ys[i], caseSensitive) && p[i] == q[i]
      {
        CompareDecides(xs[i], ys[i], caseSensitive);
      }
    }
  }

  /** One direction of the member loop: each member of ms meets its match in ns, in the maps' terms. */
  ghost predicate Matches(ms: seq<Member>, ns: seq<Member>, caseSensitive: bool) {
    forall i :: 0 <= i < |ms| ==>
      var j := Find(ns, ms[i].key, caseSensitive);
      && j < |ns|
      && Agreeing(ms[i].value, caseSensitive) && Agreeing(ns[j].value, caseSensitive)
      && CanonOf(ms[i].value, caseSensitive) == CanonOf(ns[j].value, caseSensitive)
  }

  lemma {:induction false} MembersDecide(ms: seq<Member>, ns: seq<Member>, caseSensitive: bool)
    ensures CompareMembers(ms, ns, caseSensitive) <==> Matches(ms, ns, caseSensitive)
    decreases MembersSize(ms) + MembersSize(ns) + 2, 0
  {
    forall i | 0 <= i < |ms| && Find(ns, ms[i].key, caseSensitive) < |ns|
      ensures var j := Find(ns, ms[i].key, caseSensitive);
        Compare(ms[i].value, ns[j].value, caseSensitive)
        <==> Agreeing(ms[i].value, caseSensitive) && Agreeing(ns[j].value, caseSensitive)
             && CanonOf(ms[i].value, caseSensitive) == CanonOf(ns[j].value, caseSensitive)
    {
      CompareDecides(ms[i].value, ns[Find(ns, ms[i].key, caseSensitive)].value, caseSensitive);
    }
  }

  lemma {:induction false} ObjectsDecide(ms: seq<Member>, ns: seq<Member>, caseSensitive: bool)
    ensures Compare(Object(ms), Object(ns), caseSensitive)
       <==> Agreeing(Object(ms), caseSensitive) && Agreeing(Object(ns), caseSensitive)
            && CanonOf(Object(ms), caseSensitive) == CanonOf(Object(ns), caseSensitive)
    decreases MembersSize(ms) + MembersSize(ns) + 2, 1
  {
    MembersDecide(ms, ns, caseSensitive);
    MembersDecide(ns, ms, caseSensitive);
    if Matches(ms, ns, caseSensitive) && Matches(ns, ms, caseSensitive) {
      MatchesAgree(ms, ns, caseSensitive);
      MatchesAgree(ns, ms, caseSensitive);
      MatchesSameMap(ms, ns, caseSensitive);
    }
    if Agreeing(Object(ms), caseSensitive) && Agreeing(Object(ns), caseSensitive)
       && MembersCanon(ms, caseSensitive) == MembersCanon(ns, caseSensitive) {
      SameMapMatches(ms, ns, caseSensitive);
      SameMapMatches(ns, ms, caseSensitive);
    }
  }

  lemma MatchesAgree(ms: seq<Member>, ns: seq<Member>, caseSensitive: bool)
    requires Matches(ms, ns, caseSensitive)
    ensures Agreeing(Object(ms), caseSensitive)
  {
    hide Find, Fold, SameKey, CanonOf;
    forall i | 0 <= i < |ms|
      ensures Agreeing(ms[i].value, caseSensitive) && AgreesWithFirst(ms, i, caseSensitive)
    {
      var f := Find(ms, ms[i].key, caseSensitive);
      FindByFold(ns, ms[f].key, ms[i].key, caseSensitive);
    }
  }

  lemma MatchesSameMap(ms: seq<Member>, ns: seq<Member>, caseSensitive: bool)
    requires Matches(ms, ns, caseSensitive) && Matches(ns, ms, caseSensitive)
    ensures MembersCanon(ms, caseSensitive) == MembersCanon(ns, caseSensitive)
  {
    var p, q := MembersCanon(ms, caseSensitive), MembersCanon(ns, caseSensitive);
    forall k | k in p ensures k in q && p[k] == q[k] {
      MatchesEntry(ms, ns, caseSensitive, k);
    }
    forall k | k in q ensures k in p {
      MatchesEntry(ns, ms, caseSensitive, k);
    }
  }

  lemma MatchesEntry(ms: seq<Member>, ns: seq<Member>, caseSensitive: bool, k: Bytes)
    requires Matches(ms, ns, caseSensitive) && k in MembersCanon(ms, caseSensitive)
    ensures k in MembersCanon(ns, caseSensitive)
    ensures MembersCanon(ms, caseSensitive)[k] == MembersCanon(ns, caseSensitive)[k]
  {
    hide Find, Fold, SameKey, CanonOf, MembersCanon, Agreeing;
    var i := CanonKeys(ms, caseSensitive, k);
    var f := Find(ms, ms[i].key, caseSensitive);
    CanonLookup(ms, ms[i].key, caseSensitive);
    CanonLookup(ns, ms[i].key, caseSensitive);
    FindByFold(ns, ms[f].key, ms[i].key, caseSensitive);
  }

  lemma SameMapMatches(ms: seq<Member>, ns: seq<Member>, caseSensitive: bool)
    requires Agreeing(Object(ms), caseSensitive) && Agreeing(Object(ns), caseSensitive)
    requires MembersCanon(ms, caseSensitive) == MembersCanon(ns, caseSensitive)
    ensures Matches(ms, ns, caseSensitive)
  {
    forall i | 0 <= i < |ms|
      ensures
        var j := Find(ns, ms[i].key, caseSensitive);
        && j < |ns|
        && Agreeing(ms[i].value, caseSensitive) && Agreeing(ns[j].value, caseSensitive)
        && CanonOf(ms[i].value, caseSensitive) == CanonOf(ns[j].value, caseSensitive)
    {
      CanonLookup(ms, ms[i].key, caseSensitive);
      CanonLookup(ns, ms[i].key, caseSensitive);
      assert AgreesWithFirst(ms, i, caseSensitive);
    }
  }

  // ---------- consequences ----------

  /** Symmetric and transitive on all trees; reflexive exactly on the trees whose duplicate keys agree. */
  lemma CompareIsPartialEquivalence(a: Json, b: Json, c: Json, caseSensitive: bool)
    ensures Compare(a, b, caseSensitive) == Compare(b, a, caseSensitive)
    ensures Compare(a, b, caseSensitive) && Compare(b, c, caseSensitive) ==> Compare(a, c, caseSensitive)
    ensures Compare(a, a, caseSensitive) <==> Agreeing(a, caseSensitive)
  {
    CompareDecides(a, b, caseSensitive);
    CompareDecides(b, a, caseSensitive);
    CompareDecides(b, c, caseSensitive);
    CompareDecides(a, c, caseSensitive);
    CompareDecides(a, a, caseSensitive);
  }

  // ---------- equality up to member order ----------

  /** p and q pair off the members of two objects, one to one. */
  ghost predicate Pairing(p: seq<nat>, q: seq<nat>, ms: seq<Member>, ns: seq<Member>) {
    && |p| == |ms| && |q| == |ns|
    && (forall i :: 0 <= i < |p| ==> p[i] < |q| && q[p[i]] == i)
    && (forall j :: 0 <= j < |q| ==> q[j] < |p| && p[q[j]] == j)
  }

  /** The same tree, but for the order in which each object lists its members. */
  ghost predicate Reordered(a: Json, b: Json, caseSensitive: bool)
    decreases Size(a) + Size(b), 1
  {
    match (a, b)
    case (Array(xs), Array(ys)) =>
      |xs| == |ys| && forall i :: 0 <= i < |xs| ==> Reordered(xs[i], ys[i], caseSensitive)
    case (Object(ms), Object(ns)) =>
      exists p, q :: Pairing(p, q, ms, ns) && ReorderedAlong(ms, ns, p, caseSensitive)
    case (String(s), String(t)) => UpToNul(s) == UpToNul(t)
    case _ => a == b
  }

  ghost predicate ReorderedAlong(ms: seq<Member>, ns: seq<Member>, p: seq<nat>, caseSensitive: bool)
    decreases MembersSize(ms) + MembersSize(ns) + 2, 0
  {
    && |p| == |ms|
    && forall i :: 0 <= i < |ms| ==>
         && p[i] < |ns| && SameKey(ms[i].key, ns[p[i]].key, caseSensitive)
         && Reordered(ms[i].value, ns[p[i]].value, caseSensitive)
  }

  /** Where keys differ, a look-up finds the one member that has the key. */
  lemma FindTheOne(ms: seq<Member>, key: Bytes, i: nat, caseSensitive: bool)
    requires KeysDiffer(ms, caseSensitive)
    requires i < |ms| && SameKey(ms[i].key, key, caseSensitive)
    ensures Find(ms, key, caseSensitive) == i
  {
    hide Find, Fold, SameKey;
    FoldMeans(ms[i].key, key, caseSensitive);
    var j := Find(ms, key, caseSensitive);
    FoldMeans(ms[j].key, ms[i].key, caseSensitive);
  }

  lemma {:induction false} CompareReordered(a: Json, b: Json, caseSensitive: bool)
    requires DistinctKeys(a, caseSensitive) && DistinctKeys(b, caseSensitive)
    ensures Compare(a, b, caseSensitive) <==> Reordered(a, b, caseSensitive)
    decreases Size(a) + Size(b)
  {
    match (a, b)
    case (Array(xs), Array(ys)) =>
      if |xs| == |ys| {
        forall i | 0 <= i < |xs|
          ensures Compare(xs[i], ys[i], caseSensitive) <==> Reordered(xs[i], ys[i], caseSensitive)
        {
          CompareReordered(xs[i], ys[i], caseSensitive);
        }
      }
    case (Object(ms), Object(ns)) =>
      forall i, j | 0 <= i < |ms| && 0 <= j < |ns|
        ensures Compare(ms[i].value, ns[j].value, caseSensitive)
           <==> Reordered(ms[i].value, ns[j].value, caseSensitive)
      {
        CompareReordered(ms[i].value, ns[j].value, caseSensitive);
      }
      if Compare(a, b, caseSensitive) {
        LookupsPair(ms, ns, caseSensitive);
      }
      if Reordered(a, b, caseSensitive) {
        var p, q :| Pairing(p, q, ms, ns) && ReorderedAlong(ms, ns, p, caseSensitive);
        PairingCompares(ms, ns, p, q, caseSensitive);
      }
    case _ =>
  }

  ghost predicate SameOnValues(ms: seq<Member>, ns: seq<Member>, caseSensitive: bool) {
    forall i, j :: 0 <= i < |ms| && 0 <= j < |ns| ==>
      (Compare(ms[i].value, ns[j].value, caseSensitive) <==> Reordered(ms[i].value, ns[j].value, caseSensitive))
  }

  /** The two look-ups of the comparer pair the members off. */
  lemma LookupsPair(ms: seq<Member>, ns: seq<Member>, caseSensitive: bool)
    requires KeysDiffer(ms, caseSensitive) && KeysDiffer(ns, caseSensitive) && SameOnValues(ms, ns, caseSensitive)
    requires CompareMembers(ms, ns, caseSensitive) && CompareMembers(ns, ms, caseSensitive)
    ensures exists p, q :: Pairing(p, q, ms, ns) && ReorderedAlong(ms, ns, p, caseSensitive)
  {
    hide Compare, CompareMembers, Reordered, Find, Fold, KeysDiffer, SameOnValues;
    var p := Lookups(ms, ns, caseSensitive);
    var q := Lookups(ns, ms, caseSensitive);
    forall i | 0 <= i < |ms|
      ensures p[i] < |ns| && q[p[i]] == i && SameKey(ms[i].key, ns[p[i]].key, caseSensitive)
      ensures Reordered(ms[i].value, ns[p[i]].value, caseSensitive)
    {
      LookupBack(ms, ns, i, caseSensitive);
      SameOn(ms, ns, i, p[i], caseSensitive);
    }
    forall j | 0 <= j < |ns| ensures q[j] < |ms| && p[q[j]] == j {
      LookupBack(ns, ms, j, caseSensitive);
    }
    assert Pairing(p, q, ms, ns) && ReorderedAlong(ms, ns, p, caseSensitive);
  }

  function Lookups(ms: seq<Member>, ns: seq<Member>, caseSensitive: bool): (r: seq<nat>)
    ensures |r| == |ms| && forall i :: 0 <= i < |ms| ==> r[i] == Find(ns, ms[i].key, caseSensitive)
  {
    seq(|ms|, i requires 0 <= i < |ms| => Find(ns, ms[i].key, caseSensitive))
  }

  /** Looking a member up and looking the result up again comes back to it. */
  lemma LookupBack(ms: seq<Member>, ns: seq<Member>, i: nat, caseSensitive: bool)
    requires KeysDiffer(ms, caseSensitive) && CompareMembers(ms, ns, caseSensitive) && i < |ms|
    ensures
      var j := Find(ns, ms[i].key, caseSensitive);
      && j < |ns| && Find(ms, ns[j].key, caseSensitive) == i && Compare(ms[i].value, ns[j].value, caseSensitive)
      && SameKey(ms[i].key, ns[j].key, caseSensitive)
  {
    hide Compare, Find, Fold, KeysDiffer, SameKey;
    var j := Find(ns, ms[i].key, caseSensitive);
    FindMeans(ns, ms[i].key, caseSensitive);
    SameKeyTurns(ns[j].key, ms[i].key, caseSensitive);
    FindTheOne(ms, ns[j].key, i, caseSensitive);
  }

  lemma SameOn(ms: seq<Member>, ns: seq<Member>, i: nat, j: nat, caseSensitive: bool)
    requires SameOnValues(ms, ns, caseSensitive) && i < |ms| && j < |ns|
    requires Compare(ms[i].value, ns[j].value, caseSensitive)
    ensures Reordered(ms[i].value, ns[j].value, caseSensitive)
  {
    hide Compare, Reordered;
  }

  /** Members that pair off are found by both look-ups. */
  lemma PairingCompares(ms: seq<Member>, ns: seq<Member>, p: seq<nat>, q: seq<nat>, caseSensitive: bool)
    requires KeysDiffer(ms, caseSensitive) && KeysDiffer(ns, caseSensitive) && SameOnValues(ms, ns, caseSensitive)
    requires Pairing(p, q, ms, ns) && ReorderedAlong(ms, ns, p, caseSensitive)
    ensures CompareMembers(ms, ns, caseSensitive) && CompareMembers(ns, ms, caseSensitive)
  {
    hide Compare, Reordered, Find, Fold;
    forall i | 0 <= i < |ms|
      ensures Find(ns, ms[i].key, caseSensitive) == p[i] && Find(ms, ns[p[i]].key, caseSensitive) == i
      ensures Compare(ms[i].value, ns[p[i]].value, caseSensitive)
      ensures Compare(ns[p[i]].value, ms[i].value, caseSensitive)
    {
      FindTheOne(ns, ms[i].key, p[i], caseSensitive);
      FindTheOne(ms, ns[p[i]].key, i, caseSensitive);
      CompareIsPartialEquivalence(ms[i].value, ns[p[i]].value, ms[i].value, caseSensitive);
    }
    forall j | 0 <= j < |ns|
      ensures Find(ms, ns[j].key, caseSensitive) == q[j] && Compare(ns[j].value, ms[q[j]].value, caseSensitive)
    {
      assert p[q[j]] == j;
    }
  }

  /** On trees without repeated keys, comparing is equality up to member order. */
  lemma CompareIgnoresOrderOnly(a: Json, b: Json, caseSensitive: bool)
    requires DistinctKeys(a, caseSensitive) && DistinctKeys(b, caseSensitive)
    ensures Compare(a, b, caseSensitive) <==> Reordered(a, b, caseSensitive)
    ensures Compare(a, b, caseSensitive) <==> CanonOf(a, caseSensitive) == CanonOf(b, caseSensitive)
  {
    CompareReordered(a, b, caseSensitive);
    DistinctKeysAgree(a, caseSensitive);
    DistinctKeysAgree(b, caseSensitive);
    CompareDecides(a, b, caseSensitive);
  }

  /** `cJSON_Duplicate`: a fresh copy, without the children unless asked to recurse; strings are copied up to
      their first NUL. */
  function Duplicate(v: Json, recurse: bool): Json
    decreases v, 1
  {
    match v
    case String(s) => String(UpToNul(s))
    case Array(items) => Array(if recurse then DuplicateItems(items) else [])
    case Object(members) => Object(if recurse then DuplicateMembers(members) else [])
    case _ => v
  }

  function DuplicateItems(items: seq<Json>): (r: seq<Json>)
    ensures |r| == |items| && forall i :: 0 <= i < |items| ==> r[i] == Duplicate(items[i], true)
    decreases items, 0
  {
    if items == [] then [] else [Duplicate(items[0], true)] + DuplicateItems(items[1..])
  }

  function DuplicateMembers(members: seq<Member>): (r: seq<Member>)
    ensures |r| == |members|
    ensures forall i :: 0 <= i < |members| ==>
      r[i] == Member(UpToNul(members[i].key), Duplicate(members[i].value, true))
    decreases members, 0
  {
    if members == [] then []
    else [Member(UpToNul(members[0].key), Duplicate(members[0].value, true))] + DuplicateMembers(members[1..])
  }

  /** No string or key of the tree holds a NUL. */
  ghost predicate NulFreeTree(v: Json) {
    match v
    case String(s) => NulFree(s)
    case Array(items) => forall i :: 0 <= i < |items| ==> NulFreeTree(items[i])
    case Object(members) => forall i :: 0 <= i < |members| ==> NulFree(members[i].key) && NulFreeTree(members[i].value)
    case _ => true
  }

  /** A recursive duplicate is the same tree exactly if no string holds a NUL; one that does not recurse, exactly if
      in addition there are no children. */
  lemma {:induction false} DuplicateIsSame(v: Json)
    ensures Duplicate(v, true) == v <==> NulFreeTree(v)
    ensures Duplicate(v, false) == v <==>
      NulFreeTree(v) && (v.Array? ==> v.items == []) && (v.Object? ==> v.members == [])
  {
    match v
    case Array(items) =>
      var copy := DuplicateItems(items);
      assert copy == items <==> forall i :: 0 <= i < |items| ==> copy[i] == items[i];
      forall i | 0 <= i < |items| ensures copy[i] == items[i] <==> NulFreeTree(items[i]) {
        DuplicateIsSame(items[i]);
      }
    case Object(members) =>
      var copy := DuplicateMembers(members);
      assert copy == members <==> forall i :: 0 <= i < |members| ==> copy[i] == members[i];
      forall i | 0 <= i < |members|
        ensures copy[i] == members[i] <==> NulFree(members[i].key) && NulFreeTree(members[i].value)
      {
        DuplicateIsSame(members[i].value);
      }
    case _ =>
  }

  /** The text `"\u0000"` parses to a string that its duplicate differs from. */
  lemma EscapedNulIsLost()
    ensures
      var text: Bytes := [34, 92, 117, 48, 48, 48, 48, 34];
      && NulFree(text) && CJsonGrammar.ParseText(text, true) == CJsonGrammar.Done(String([0]), 8)
      && Duplicate(String([0]), true) != String([0])
  {
    hide CJsonGrammar.ParseText;
    var digits: Bytes := [48, 48, 48, 48];
    assert CJsonGrammar.Hex4(digits, 0) == 0;
    CJsonAcceptance.ZeroUnitIsAccepted(digits);
    assert [34] + ([92, 117] + digits + [34]) == [34, 92, 117, 48, 48, 48, 48, 34];
    DuplicateIsSame(String([0]));
    assert [0][0] == 0;
  }

  /** The numbers of the tree are integers below 10^15; its strings are any. */
  ghost predicate PlainNumbers(v: Json) {
    match v
    case Number(r) => PlainInteger(r)
    case Array(items) => forall i :: 0 <= i < |items| ==> PlainNumbers(items[i])
    case Object(members) => forall i :: 0 <= i < |members| ==> PlainNumbers(members[i].value)
    case _ => true
  }

  lemma {:induction false} DuplicatePrints(v: Json)
    requires PlainNumbers(v)
    ensures Printable(Duplicate(v, true)) && Height(Duplicate(v, true)) == Height(v)
    decreases v, 1
  {
    match v
    case Array(items) => ItemsPrint(items);
    case Object(members) => MembersPrint(members);
    case _ =>
  }

  lemma {:induction false} ItemsPrint(items: seq<Json>)
    requires forall i :: 0 <= i < |items| ==> PlainNumbers(items[i])
    ensures forall x :: x in DuplicateItems(items) ==> Printable(x)
    ensures ItemsHeight(DuplicateItems(items)) == ItemsHeight(items)
    decreases items, 0
  {
    if items != [] {
      DuplicatePrints(items[0]);
      ItemsPrint(items[1..]);
    }
  }

  lemma {:induction false} MembersPrint(members: seq<Member>)
    requires forall i :: 0 <= i < |members| ==> PlainNumbers(members[i].value)
    ensures forall m :: m in DuplicateMembers(members) ==> NulFree(m.key) && Printable(m.value)
    ensures MembersHeight(DuplicateMembers(members)) == MembersHeight(members)
    decreases members, 0
  {
    if members != [] {
      DuplicatePrints(members[0].value);
      MembersPrint(members[1..]);
    }
  }

  /** What the printer sees of a tree are its C strings, as in its duplicate. So any text accepted, if its numbers are
      plain integers, prints either way to a text that is accepted as the duplicate. */
  lemma AcceptedPrintsAgain(text: Bytes, requireNul: bool, fmt: bool)
    requires NulFree(text) && CJsonGrammar.ParseText(text, requireNul).Done?
    requires PlainNumbers(CJsonGrammar.ParseText(text, requireNul).value)
    ensures
      var w := Duplicate(CJsonGrammar.ParseText(text, requireNul).value, true);
      var again := CJsonText.Text(w, fmt, 0);
      Printable(w) && NulFree(again) && CJsonGrammar.ParseText(again, true) == CJsonGrammar.Done(w, |again|)
  {
    hide CJsonGrammar.ParseValue, CJsonText.Text, CJsonTree.Printable, PlainNumbers, Duplicate, CJsonTree.Height;
    var c, v := text + [0], CJsonGrammar.ParseText(text, requireNul).value;
    CJsonRoundTrip.ParsedValueIsShallow(c, CJsonGrammar.SkipWhitespace(c, CJsonGrammar.SkipBom(c)), 0);
    DuplicatePrints(v);
    CJsonRoundTrip.PrintThenParse(Duplicate(v, true), fmt, true);
  }

  /** To the comparer a duplicate is like its original in every case. */
  lemma {:induction false} DuplicateLooksSame(v: Json, caseSensitive: bool)
    ensures CanonOf(Duplicate(v, true), caseSensitive) == CanonOf(v, caseSensitive)
    ensures Agreeing(Duplicate(v, true), caseSensitive) <==> Agreeing(v, caseSensitive)
  {
    match v
    case Array(items) =>
      forall i | 0 <= i < |items|
        ensures CanonOf(DuplicateItems(items)[i], caseSensitive) == CanonOf(items[i], caseSensitive)
        ensures Agreeing(DuplicateItems(items)[i], caseSensitive) <==> Agreeing(items[i], caseSensitive)
      {
        DuplicateLooksSame(items[i], caseSensitive);
      }
      assert ItemsCanon(DuplicateItems(items), caseSensitive) == ItemsCanon(items, caseSensitive);
    case Object(members) =>
      forall i | 0 <= i < |members|
        ensures CanonOf(DuplicateMembers(members)[i].value, caseSensitive) == CanonOf(members[i].value, caseSensitive)
        ensures Agreeing(DuplicateMembers(members)[i].value, caseSensitive) <==>
          Agreeing(members[i].value, caseSensitive)
      {
        DuplicateLooksSame(members[i].value, caseSensitive);
      }
      LookAlike(members, DuplicateMembers(members), caseSensitive);
    case _ =>
  }

  /** Members with the same keys, to the look-up, and the same values, to the comparer. */
  ghost predicate Alike(ms: seq<Member>, ns: seq<Member>, caseSensitive: bool) {
    && |ms| == |ns|
    && forall i :: 0 <= i < |ms| ==>
         && Fold(ns[i].key, caseSensitive) == Fold(ms[i].key, caseSensitive)
         && CanonOf(ns[i].value, caseSensitive) == CanonOf(ms[i].value, caseSensitive)
         && (Agreeing(ns[i].value, caseSensitive) <==> Agreeing(ms[i].value, caseSensitive))
  }

  lemma LookAlike(ms: seq<Member>, ns: seq<Member>, caseSensitive: bool)
    requires Alike(ms, ns, caseSensitive)
    ensures MembersCanon(ns, caseSensitive) == MembersCanon(ms, caseSensitive)
    ensures Agreeing(Object(ns), caseSensitive) <==> Agreeing(Object(ms), caseSensitive)
  {
    hide Fold, CanonOf, Find, AgreesWithFirst, MembersCanon;
    AlikeCanon(ms, ns, caseSensitive);
    forall i | 0 <= i < |ms|
      ensures AgreesWithFirst(ns, i, caseSensitive) <==> AgreesWithFirst(ms, i, caseSensitive)
    {
      FirstAlike(ms, ns, i, caseSensitive);
    }
  }

  lemma FirstAlike(ms: seq<Member>, ns: seq<Member>, i: nat, caseSensitive: bool)
    requires Alike(ms, ns, caseSensitive) && i < |ms|
    ensures AgreesWithFirst(ns, i, caseSensitive) <==> AgreesWithFirst(ms, i, caseSensitive)
  {
    hide Fold, CanonOf, Find, Agreeing;
    FindByFold(ns, ns[i].key, ms[i].key, caseSensitive);
    FindAlike(ms, ns, ms[i].key, caseSensitive);
  }

  lemma {:induction false} AlikeCanon(ms: seq<Member>, ns: seq<Member>, caseSensitive: bool)
    requires Alike(ms, ns, caseSensitive)
    ensures MembersCanon(ns, caseSensitive) == MembersCanon(ms, caseSensitive)
    decreases |ms|
  {
    hide Fold, CanonOf, Agreeing;
    if ms != [] {
      AlikeCanon(ms[1..], ns[1..], caseSensitive);
    }
  }

  lemma {:induction false} FindAlike(ms: seq<Member>, ns: seq<Member>, key: Bytes, caseSensitive: bool)
    requires Alike(ms, ns, caseSensitive)
    ensures Find(ns, key, caseSensitive) == Find(ms, key, caseSensitive)
    decreases |ms|
  {
    hide Fold, CanonOf, Agreeing;
    if ms != [] {
      FindAlike(ms[1..], ns[1..], key, caseSensitive);
    }
  }

  /** A recursive copy compares equal exactly when duplicate keys agree, so always when keys are distinct. */
  lemma DuplicateCompares(v: Json, caseSensitive: bool)
    ensures Compare(v, Duplicate(v, true), caseSensitive) <==> Agreeing(v, caseSensitive)
    ensures DistinctKeys(v, caseSensitive) ==> Compare(v, Duplicate(v, true), caseSensitive)
  {
    DuplicateLooksSame(v, caseSensitive);
    CompareDecides(v, Duplicate(v, true), caseSensitive);
    if DistinctKeys(v, caseSensitive) {
      DistinctKeysAgree(v, caseSensitive);
    }
  }

  /** A key whose second member disagrees with the first. */
  lemma RepeatedKeyDisagrees(ms: seq<Member>, caseSensitive: bool)
    requires |ms| == 2 && ms[0].key == ms[1].key
    requires CanonOf(ms[0].value, caseSensitive) != CanonOf(ms[1].value, caseSensitive)
    ensures !Agreeing(Object(ms), caseSensitive)
  {
    hide CanonOf, Fold, Find;
    FindTheFirst(ms, caseSensitive);
    assert !AgreesWithFirst(ms, 1, caseSensitive);
  }

  lemma FindTheFirst(ms: seq<Member>, caseSensitive: bool)
    requires |ms| == 2 && ms[0].key == ms[1].key
    ensures Find(ms, ms[1].key, caseSensitive) == 0
  {
    hide Fold;
  }

  /** A repeated key with two values: the copy compares unequal. */
  lemma RepeatedKeyBreaksReflexivity()
    ensures var v := Object([Member([120], True), Member([120], False)]); !Compare(v, Duplicate(v, true), true)
  {
    hide Compare, Duplicate, Agreeing;
    var members := [Member([120], True), Member([120], False)];
    DuplicateCompares(Object(members), true);
    RepeatedKeyDisagrees(members, true);
  }
}
