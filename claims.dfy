/**
 * Claims as System.Security.Claims carries them, the lookup that LINQ's
 * ToLookup builds from the caller's key/value pairs, and the two LINQ
 * queries the token provider runs over them: "first value of every
 * group" and FirstOrDefault by claim type.
 */
module Claims {
  import opened Wrappers

  /** A claim: its type (the key) and its string value. */
  datatype Claim = Claim(claimType: string, value: string)

  /** One key/value pair as the caller supplies it. */
  type Pair = (string, string)

  /** ClaimTypes.Email. */
  const EmailClaimType: string := "http://schemas.xmlsoap.org/ws/2005/05/identity/claims/emailaddress"

  /** ClaimTypes.NameIdentifier. */
  const NameIdentifierClaimType: string := "http://schemas.xmlsoap.org/ws/2005/05/identity/claims/nameidentifier"

  // ---------------------------------------------------------------------
  // The lookup

  /** One group of a lookup: a key and the values given for it, in input order. */
  datatype Grouping = Grouping(key: string, elements: seq<string>)

  /** What every ILookup built by ToLookup satisfies: one group per key, no group empty. */
  predicate LookupShape(l: seq<Grouping>) {
    && (forall i, j :: 0 <= i < j < |l| ==> l[i].key != l[j].key)
    && (forall i :: 0 <= i < |l| ==> |l[i].elements| > 0)
  }

  type Lookup = l: seq<Grouping> | LookupShape(l)

  /** The position of the group for key `k`, if there is one. */
  function KeyIndex(l: seq<Grouping>, k: string): (r: Option<nat>)
    ensures r.Some? ==> r.value < |l| && l[r.value].key == k
    ensures r.None? <==> forall i :: 0 <= i < |l| ==> l[i].key != k
  {
    if |l| == 0 then None
    else if l[0].key == k then Some(0)
    else match KeyIndex(l[1..], k)
      case None => None
      case Some(j) => Some(j + 1)
  }

  /** One step of ToLookup: append the value to the key's group, opening a new group at the end for a new key. */
  function Add(l: Lookup, p: Pair): Lookup
  {
    match KeyIndex(l, p.0)
    case Some(i) =>
      var r := l[i := Grouping(p.0, l[i].elements + [p.1])];
      assert forall j :: 0 <= j < |l| ==> r[j].key == l[j].key;
      r
    case None => l + [Grouping(p.0, [p.1])]
  }

  /** pairs.ToLookup(x => x.Key, x => x.Value): the pairs added one by one, in order. */
  function ToLookup(pairs: seq<Pair>): Lookup
  {
    if |pairs| == 0 then [] else Add(ToLookup(pairs[..|pairs| - 1]), pairs[|pairs| - 1])
  }

  /** lookup.Select(x => new Claim(x.Key, x.FirstOrDefault())): one claim per group, carrying the group's first value. */
  function FirstValues(l: Lookup): seq<Claim>
  {
    seq(|l|, i requires 0 <= i < |l| => Claim(l[i].key, l[i].elements[0]))
  }

  /** The claims the token provider builds from a list of pairs: ToLookup, then the first value of every group. */
  function Collapse(pairs: seq<Pair>): seq<Claim>
  {
    FirstValues(ToLookup(pairs))
  }

  // ---------------------------------------------------------------------
  // Reference notions, stated on the input pairs directly

  /** The keys that occur in the input. */
  function Keys(pairs: seq<Pair>): set<string>
  {
    set i | 0 <= i < |pairs| :: pairs[i].0
  }

  /** The position of the first pair with key `k`. */
  function FirstIndex(pairs: seq<Pair>, k: string): (n: nat)
    requires k in Keys(pairs)
    ensures n < |pairs| && pairs[n].0 == k
    ensures forall j :: 0 <= j < n ==> pairs[j].0 != k
  {
    if pairs[0].0 == k then 0
    else
      assert k in Keys(pairs[1..]) by {
        var i :| 0 <= i < |pairs| && pairs[i].0 == k;
        assert pairs[1..][i - 1].0 == k;
      }
      1 + FirstIndex(pairs[1..], k)
  }

  /** Every value given for key `k`, in input order. */
  function ValuesOf(pairs: seq<Pair>, k: string): seq<string>
  {
    if |pairs| == 0 then []
    else ValuesOf(pairs[..|pairs| - 1], k) + (if pairs[|pairs| - 1].0 == k then [pairs[|pairs| - 1].1] else [])
  }

  /** No key occurs twice. */
  predicate DistinctKeys(pairs: seq<Pair>) {
    forall i, j :: 0 <= i < j < |pairs| ==> pairs[i].0 != pairs[j].0
  }

  /** The same pairs, read as claims. */
  function AsClaims(pairs: seq<Pair>): (c: seq<Claim>)
    ensures |c| == |pairs|
    ensures forall i :: 0 <= i < |pairs| ==> c[i].claimType == pairs[i].0 && c[i].value == pairs[i].1
  {
    seq(|pairs|, i requires 0 <= i < |pairs| => Claim(pairs[i].0, pairs[i].1))
  }

  /** The same claims, read as pairs. */
  function AsPairs(claims: seq<Claim>): (p: seq<Pair>)
    ensures |p| == |claims|
    ensures forall i :: 0 <= i < |claims| ==> p[i].0 == claims[i].claimType && p[i].1 == claims[i].value
  {
    seq(|claims|, i requires 0 <= i < |claims| => (claims[i].claimType, claims[i].value))
  }

  // ---------------------------------------------------------------------
  // Lemmas about the reference notions

  lemma {:induction false} ValuesOfAbsentKey(pairs: seq<Pair>, k: string)
    requires k !in Keys(pairs)
    ensures ValuesOf(pairs, k) == []
  {
    if |pairs| > 0 {
      var q := pairs[..|pairs| - 1];
      assert Keys(q) <= Keys(pairs) by {
        forall x | x in Keys(q) ensures x in Keys(pairs) {
          var i :| 0 <= i < |q| && q[i].0 == x;
          assert pairs[i].0 == x;
        }
      }
      ValuesOfAbsentKey(q, k);
      assert pairs[|pairs| - 1].0 in Keys(pairs);
    }
  }

  /** Appending a pair adds its key to the keys and leaves every earlier first occurrence where it was. */
  lemma {:induction false} AppendKeepsFirstIndex(q: seq<Pair>, x: Pair)
    ensures Keys(q + [x]) == Keys(q) + {x.0}
    ensures forall k :: k in Keys(q) ==> FirstIndex(q + [x], k) == FirstIndex(q, k)
    ensures x.0 !in Keys(q) ==> FirstIndex(q + [x], x.0) == |q|
  {
    var p := q + [x];
    forall k | k in Keys(q) + {x.0} ensures k in Keys(p) {
      if k == x.0 {
        assert p[|q|].0 == k;
      } else {
        var i :| 0 <= i < |q| && q[i].0 == k;
        assert p[i].0 == k;
      }
    }
    forall k | k in Keys(p) ensures k in Keys(q) + {x.0} {
      var i :| 0 <= i < |p| && p[i].0 == k;
      if i < |q| {
        assert q[i].0 == k;
      }
    }
    forall k | k in Keys(q) ensures FirstIndex(p, k) == FirstIndex(q, k) {
      var n := FirstIndex(q, k);
      assert p[n].0 == k;
    }
  }

  /** The first value of a key is the value of its first occurrence. */
  lemma {:induction false} ValuesOfStartsWithFirst(pairs: seq<Pair>, k: string)
    requires k in Keys(pairs)
    ensures |ValuesOf(pairs, k)| > 0 && ValuesOf(pairs, k)[0] == pairs[FirstIndex(pairs, k)].1
  {
    var q := pairs[..|pairs| - 1];
    var x := pairs[|pairs| - 1];
    assert pairs == q + [x];
    AppendKeepsFirstIndex(q, x);
    if k in Keys(q) {
      ValuesOfStartsWithFirst(q, k);
    } else {
      ValuesOfAbsentKey(q, k);
    }
  }

  /** Every group of `l` holds all values of its key, and its key occurs in `pairs`. */
  ghost predicate GroupsHoldValues(pairs: seq<Pair>, l: seq<Grouping>) {
    forall i :: 0 <= i < |l| ==> l[i].key in Keys(pairs) && l[i].elements == ValuesOf(pairs, l[i].key)
  }

  /** Every key of `pairs` has a group in `l`. */
  ghost predicate GroupsCoverKeys(pairs: seq<Pair>, l: seq<Grouping>) {
    forall k :: k in Keys(pairs) ==> KeyIndex(l, k).Some?
  }

  /** The groups of `l` stand in the order of their keys' first occurrences in `pairs`. */
  ghost predicate GroupsInFirstOrder(pairs: seq<Pair>, l: seq<Grouping>) {
    forall i, j :: 0 <= i < j < |l| ==>
      l[i].key in Keys(pairs) && l[j].key in Keys(pairs) && FirstIndex(pairs, l[i].key) < FirstIndex(pairs, l[j].key)
  }

  /** The lookup `l` groups `pairs`. */
  ghost predicate GroupsOf(pairs: seq<Pair>, l: seq<Grouping>) {
    GroupsHoldValues(pairs, l) && GroupsCoverKeys(pairs, l) && GroupsInFirstOrder(pairs, l)
  }

  lemma {:induction false} ValuesOfAppend(q: seq<Pair>, x: Pair, k: string)
    ensures ValuesOf(q + [x], k) == ValuesOf(q, k) + (if x.0 == k then [x.1] else [])
  {
    assert (q + [x])[..|q|] == q;
  }

  /** The lookup Add builds when the key already has a group: same keys, that group one value longer. */
  lemma {:induction false} AddToExistingShape(l: Lookup, x: Pair)
    requires KeyIndex(l, x.0).Some?
    ensures |Add(l, x)| == |l|
    ensures forall i :: 0 <= i < |l| ==> Add(l, x)[i].key == l[i].key
    ensures forall i :: 0 <= i < |l| ==>
      Add(l, x)[i].elements == l[i].elements + (if l[i].key == x.0 then [x.1] else [])
  {
  }

  /** Adding a pair whose key already has a group extends that group and nothing else. */
  lemma {:induction false} AddToExistingGroup(q: seq<Pair>, x: Pair, l: Lookup)
    requires GroupsOf(q, l) && KeyIndex(l, x.0).Some?
    ensures GroupsOf(q + [x], Add(l, x))
  {
    AppendKeepsFirstIndex(q, x);
    AddToExistingShape(l, x);
    var p := q + [x];
    var r := Add(l, x);
    assert GroupsHoldValues(p, r) by {
      forall i | 0 <= i < |r| ensures r[i].key in Keys(p) && r[i].elements == ValuesOf(p, r[i].key) {
        ValuesOfAppend(q, x, r[i].key);
      }
    }
    assert GroupsCoverKeys(p, r) by {
      forall k | k in Keys(p) ensures KeyIndex(r, k).Some? {
        if k != x.0 {
          var h := KeyIndex(l, k).value;
          assert r[h].key == k;
        }
      }
    }
    assert GroupsInFirstOrder(p, r) by {
      forall i, j | 0 <= i < j < |r|
        ensures r[i].key in Keys(p) && r[j].key in Keys(p) && FirstIndex(p, r[i].key) < FirstIndex(p, r[j].key)
      {
        assert r[i].key == l[i].key && r[j].key == l[j].key;
      }
    }
  }

  /** Adding a pair with a new key opens a group at the end. */
  lemma {:induction false} AddNewGroup(q: seq<Pair>, x: Pair, l: Lookup)
    requires GroupsOf(q, l) && KeyIndex(l, x.0).None?
    ensures GroupsOf(q + [x], Add(l, x))
  {
    AppendKeepsFirstIndex(q, x);
    assert x.0 !in Keys(q);
    assert Add(l, x) == l + [Grouping(x.0, [x.1])];
    NewGroupHoldsValues(q, x, l);
    NewGroupCoversKeys(q, x, l);
    NewGroupInFirstOrder(q, x, l);
  }

  lemma {:induction false} NewGroupHoldsValues(q: seq<Pair>, x: Pair, l: seq<Grouping>)
    requires GroupsHoldValues(q, l) && x.0 !in Keys(q)
    ensures GroupsHoldValues(q + [x], l + [Grouping(x.0, [x.1])])
  {
    AppendKeepsFirstIndex(q, x);
    ValuesOfAbsentKey(q, x.0);
    var p := q + [x];
    var r := l + [Grouping(x.0, [x.1])];
    forall i | 0 <= i < |r| ensures r[i].key in Keys(p) && r[i].elements == ValuesOf(p, r[i].key) {
      ValuesOfAppend(q, x, r[i].key);
    }
  }

  lemma {:induction false} NewGroupCoversKeys(q: seq<Pair>, x: Pair, l: seq<Grouping>)
    requires GroupsCoverKeys(q, l)
    ensures GroupsCoverKeys(q + [x], l + [Grouping(x.0, [x.1])])
  {
    AppendKeepsFirstIndex(q, x);
    var p := q + [x];
    var r := l + [Grouping(x.0, [x.1])];
    forall k | k in Keys(p) ensures KeyIndex(r, k).Some? {
      if k == x.0 {
        assert r[|l|].key == k;
      } else {
        var h := KeyIndex(l, k).value;
        assert r[h].key == k;
      }
    }
  }

  lemma {:induction false} NewGroupInFirstOrder(q: seq<Pair>, x: Pair, l: seq<Grouping>)
    requires GroupsInFirstOrder(q, l) && GroupsHoldValues(q, l) && x.0 !in Keys(q)
    ensures GroupsInFirstOrder(q + [x], l + [Grouping(x.0, [x.1])])
  {
    AppendKeepsFirstIndex(q, x);
    var p := q + [x];
    var r := l + [Grouping(x.0, [x.1])];
    forall i, j | 0 <= i < j < |r|
      ensures r[i].key in Keys(p) && r[j].key in Keys(p) && FirstIndex(p, r[i].key) < FirstIndex(p, r[j].key)
    {
      if j == |l| {
        assert r[i].key == l[i].key && l[i].key in Keys(q);
      } else {
        assert r[i].key == l[i].key && r[j].key == l[j].key;
      }
    }
  }

  /**
   * What ToLookup builds: every group holds all values of its key in input
   * order, every input key has a group, and the groups stand in the order
   * of their keys' first occurrences.
   */
  lemma {:induction false} ToLookupGroups(pairs: seq<Pair>)
    ensures GroupsOf(pairs, ToLookup(pairs))
  {
    if |pairs| > 0 {
      var q := pairs[..|pairs| - 1];
      var x := pairs[|pairs| - 1];
      assert pairs == q + [x];
      ToLookupGroups(q);
      if KeyIndex(ToLookup(q), x.0).Some? {
        AddToExistingGroup(q, x, ToLookup(q));
      } else {
        AddNewGroup(q, x, ToLookup(q));
      }
    }
  }

  // ---------------------------------------------------------------------
  // Claim collapsing

  /**
   * Collapsing keeps one claim per distinct key, exactly the input's keys,
   * each with the first value supplied for it, in the order of the keys'
   * first occurrences; every later duplicate is dropped.
   */
  lemma {:induction false} CollapseKeepsFirstValues(pairs: seq<Pair>)
    ensures forall i, j :: 0 <= i < j < |Collapse(pairs)| ==> Collapse(pairs)[i].claimType != Collapse(pairs)[j].claimType
    ensures (set i | 0 <= i < |Collapse(pairs)| :: Collapse(pairs)[i].claimType) == Keys(pairs)
    ensures forall i :: 0 <= i < |Collapse(pairs)| ==>
      Collapse(pairs)[i].claimType in Keys(pairs) &&
      Collapse(pairs)[i].value == pairs[FirstIndex(pairs, Collapse(pairs)[i].claimType)].1
    ensures forall i, j :: 0 <= i < j < |Collapse(pairs)| ==>
      Collapse(pairs)[i].claimType in Keys(pairs) && Collapse(pairs)[j].claimType in Keys(pairs) &&
      FirstIndex(pairs, Collapse(pairs)[i].claimType) < FirstIndex(pairs, Collapse(pairs)[j].claimType)
  {
    var l := ToLookup(pairs);
    var c := Collapse(pairs);
    ToLookupGroups(pairs);
    forall i | 0 <= i < |c| ensures c[i].value == pairs[FirstIndex(pairs, c[i].claimType)].1 {
      ValuesOfStartsWithFirst(pairs, l[i].key);
    }
    forall k | k in Keys(pairs) ensures k in (set i | 0 <= i < |c| :: c[i].claimType) {
      var g := KeyIndex(l, k).value;
      assert c[g].claimType == k;
    }
  }

  /** Two values for one key: only the first is kept. */
  lemma {:induction false} DuplicateKeyKeepsFirstValue(k: string, v1: string, v2: string)
    ensures Collapse([(k, v1), (k, v2)]) == [Claim(k, v1)]
  {
    assert [(k, v1), (k, v2)][..1] == [(k, v1)];
    assert [(k, v1)][..0] == [];
    assert ToLookup([(k, v1)]) == [Grouping(k, [v1])];
    assert KeyIndex([Grouping(k, [v1])], k) == Some(0);
    assert ToLookup([(k, v1), (k, v2)]) == Add([Grouping(k, [v1])], (k, v2));
    AddToExistingShape([Grouping(k, [v1])], (k, v2));
  }

  /** With no key repeated, collapsing loses nothing and reorders nothing. */
  lemma {:induction false} CollapseOfDistinctKeys(pairs: seq<Pair>)
    requires DistinctKeys(pairs)
    ensures Collapse(pairs) == AsClaims(pairs)
  {
    ToLookupOfDistinctKeys(pairs);
  }

  lemma {:induction false} ToLookupOfDistinctKeys(pairs: seq<Pair>)
    requires DistinctKeys(pairs)
    ensures ToLookup(pairs) == seq(|pairs|, i requires 0 <= i < |pairs| => Grouping(pairs[i].0, [pairs[i].1]))
  {
    if |pairs| > 0 {
      var q := pairs[..|pairs| - 1];
      var x := pairs[|pairs| - 1];
      ToLookupOfDistinctKeys(q);
      assert KeyIndex(ToLookup(q), x.0).None? by {
        forall i | 0 <= i < |q| ensures ToLookup(q)[i].key != x.0 {
          assert q[i] == pairs[i];
        }
      }
    }
  }

  /** Collapsing twice is collapsing once. */
  lemma {:induction false} CollapseIsIdempotent(pairs: seq<Pair>)
    ensures Collapse(AsPairs(Collapse(pairs))) == Collapse(pairs)
  {
    CollapseKeepsFirstValues(pairs);
    var c := Collapse(pairs);
    CollapseOfDistinctKeys(AsPairs(c));
  }

  // ---------------------------------------------------------------------
  // FirstOrDefault by claim type

  /** The position of the earliest claim of the given type, if any. */
  function IndexOfType(claims: seq<Claim>, claimType: string): (r: Option<nat>)
    ensures r.Some? ==> r.value < |claims| && claims[r.value].claimType == claimType
    ensures r.Some? ==> forall j :: 0 <= j < r.value ==> claims[j].claimType != claimType
    ensures r.None? <==> forall i :: 0 <= i < |claims| ==> claims[i].claimType != claimType
  {
    if |claims| == 0 then None
    else if claims[0].claimType == claimType then Some(0)
    else match IndexOfType(claims[1..], claimType)
      case None => None
      case Some(j) => Some(j + 1)
  }

  /** claims.FirstOrDefault(x => x.Type == claimType): the earliest claim of that type, or null. */
  function FirstOfType(claims: seq<Claim>, claimType: string): Option<Claim>
  {
    match IndexOfType(claims, claimType)
    case None => None
    case Some(i) => Some(claims[i])
  }

  /** The claims whose type is one of `types`, in order. */
  function OfTypes(claims: seq<Claim>, types: set<string>): (r: seq<Claim>)
  {
    if |claims| == 0 then []
    else (if claims[0].claimType in types then [claims[0]] else []) + OfTypes(claims[1..], types)
  }

  /** FirstOrDefault looks at the head first, then at the rest. */
  lemma {:induction false} FirstOfTypeCons(c: Claim, rest: seq<Claim>, claimType: string)
    ensures FirstOfType([c] + rest, claimType) == if c.claimType == claimType then Some(c) else FirstOfType(rest, claimType)
  {
    assert ([c] + rest)[1..] == rest;
    if c.claimType != claimType {
      match IndexOfType(rest, claimType)
      case None =>
      case Some(j) => assert ([c] + rest)[j + 1] == rest[j];
    }
  }

  /** Claims of other types do not change which claim of a given type comes first. */
  lemma {:induction false} FirstOfTypeIgnoresOtherTypes(claims: seq<Claim>, types: set<string>, claimType: string)
    requires claimType in types
    ensures FirstOfType(OfTypes(claims, types), claimType) == FirstOfType(claims, claimType)
  {
    if |claims| > 0 {
      FirstOfTypeIgnoresOtherTypes(claims[1..], types, claimType);
      var rest := OfTypes(claims[1..], types);
      assert claims == [claims[0]] + claims[1..];
      FirstOfTypeCons(claims[0], claims[1..], claimType);
      if claims[0].claimType in types {
        assert OfTypes(claims, types) == [claims[0]] + rest;
        FirstOfTypeCons(claims[0], rest, claimType);
      } else {
        assert OfTypes(claims, types) == rest;
      }
    }
  }
}
