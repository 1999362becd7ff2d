/**
 Unique-name lookup over a list of named scene members.

 The environment base class looks up actors and articulations by name the
 same way: it keeps the members whose name equals the query, in list order,
 and then decides on the number of survivors. Exactly one survivor is the
 answer; none is a "not found" failure; more than one is a "not unique"
 failure, even though matches exist. This module states that procedure once,
 generically over the member type and the way a member's name is read.
 */
module NameLookup {

  /** The three outcomes of a lookup by name. */
  datatype Outcome<T> = Found(entry: T) | NotFound | NotUnique

  /** The members whose name equals `name`, in the order of `entries`
      (the filtering list comprehension). */
  function Matching<T>(entries: seq<T>, nameOf: T -> string, name: string): (r: seq<T>)
    ensures |r| <= |entries|
    ensures forall k :: 0 <= k < |r| ==> r[k] in entries && nameOf(r[k]) == name
    ensures forall i :: 0 <= i < |entries| && nameOf(entries[i]) == name ==> entries[i] in r
    decreases |entries|
  {
    if entries == [] then []
    else
      var init, last := entries[..|entries| - 1], entries[|entries| - 1];
      assert entries == init + [last];
      Matching(init, nameOf, name) + (if nameOf(last) == name then [last] else [])
  }

  /** The positions of `entries` that hold a member named `name`: an
      independent account of what the filter keeps. */
  function MatchIndices<T>(entries: seq<T>, nameOf: T -> string, name: string): set<int>
  {
    set i | 0 <= i < |entries| && nameOf(entries[i]) == name
  }

  /** No member is named `name`. */
  predicate NoMatch<T>(entries: seq<T>, nameOf: T -> string, name: string)
  {
    forall i :: 0 <= i < |entries| ==> nameOf(entries[i]) != name
  }

  /** Position `i` holds the one and only member named `name`. */
  predicate UniqueAt<T>(entries: seq<T>, nameOf: T -> string, name: string, i: int)
  {
    && 0 <= i < |entries|
    && nameOf(entries[i]) == name
    && forall j :: 0 <= j < |entries| && j != i ==> nameOf(entries[j]) != name
  }

  /** Two different positions hold a member named `name`. */
  predicate TwoMatches<T>(entries: seq<T>, nameOf: T -> string, name: string)
  {
    exists i, j :: 0 <= i < j < |entries| && nameOf(entries[i]) == name && nameOf(entries[j]) == name
  }

  /** The filter keeps exactly as many members as there are matching positions. */
  lemma {:induction false} MatchingCount<T>(entries: seq<T>, nameOf: T -> string, name: string)
    ensures |Matching(entries, nameOf, name)| == |MatchIndices(entries, nameOf, name)|
    decreases |entries|
  {
    if entries == [] {
      assert MatchIndices(entries, nameOf, name) == {};
    } else {
      var n := |entries| - 1;
      var init := entries[..n];
      MatchingCount(init, nameOf, name);
      var before := MatchIndices(init, nameOf, name);
      var tail: set<int> := if nameOf(entries[n]) == name then {n} else {};
      assert MatchIndices(entries, nameOf, name) == before + tail;
      assert n !in before;
    }
  }

  /** The filter keeps each member named `name` exactly as often as the list
      holds it, and nothing else: no member is dropped, repeated or invented. */
  lemma {:induction false} MatchingMultiset<T>(entries: seq<T>, nameOf: T -> string, name: string)
    ensures forall x :: multiset(Matching(entries, nameOf, name))[x] ==
                        (if nameOf(x) == name then multiset(entries)[x] else 0)
    decreases |entries|
  {
    if entries != [] {
      var init, last := entries[..|entries| - 1], entries[|entries| - 1];
      assert entries == init + [last];
      MatchingMultiset(init, nameOf, name);
    }
  }

  /** Look `name` up in `entries`: the outcome depends only on the number of
      matching positions, and a found member is a matching member of the list. */
  function Lookup<T>(entries: seq<T>, nameOf: T -> string, name: string): (r: Outcome<T>)
    ensures r.Found? ==> r.entry in entries && nameOf(r.entry) == name
    ensures r.NotFound? <==> |MatchIndices(entries, nameOf, name)| == 0
    ensures r.Found? <==> |MatchIndices(entries, nameOf, name)| == 1
    ensures r.NotUnique? <==> |MatchIndices(entries, nameOf, name)| > 1
  {
    MatchingCount(entries, nameOf, name);
    var matches := Matching(entries, nameOf, name);
    if |matches| > 1 then NotUnique
    else if |matches| == 0 then NotFound
    else Found(matches[0])
  }

  /** When exactly one member carries the name, the lookup returns that member. */
  lemma LookupUnique<T>(entries: seq<T>, nameOf: T -> string, name: string, i: int)
    requires UniqueAt(entries, nameOf, name, i)
    ensures Lookup(entries, nameOf, name) == Found(entries[i])
  {
    assert MatchIndices(entries, nameOf, name) == {i};
    var r := Lookup(entries, nameOf, name);
    var k :| 0 <= k < |entries| && entries[k] == r.entry;
    assert k == i;
  }

  /** Whatever the lookup returns is the one member that carries the name. */
  lemma LookupFoundIsUnique<T>(entries: seq<T>, nameOf: T -> string, name: string)
    requires Lookup(entries, nameOf, name).Found?
    ensures exists i :: UniqueAt(entries, nameOf, name, i) && Lookup(entries, nameOf, name).entry == entries[i]
  {
    var r := Lookup(entries, nameOf, name);
    var s := MatchIndices(entries, nameOf, name);
    var i :| 0 <= i < |entries| && entries[i] == r.entry;
    assert i in s;
    assert |s - {i}| == 0;
    assert s == {i};
    forall j | 0 <= j < |entries| && j != i
      ensures nameOf(entries[j]) != name
    {
      assert j !in s;
    }
    assert UniqueAt(entries, nameOf, name, i);
  }

  /** The lookup fails with "not found" exactly when no member carries the name. */
  lemma LookupNotFound<T>(entries: seq<T>, nameOf: T -> string, name: string)
    ensures Lookup(entries, nameOf, name).NotFound? <==> NoMatch(entries, nameOf, name)
  {
  }

  /** The lookup fails with "not unique" exactly when two members carry the name. */
  lemma LookupNotUnique<T>(entries: seq<T>, nameOf: T -> string, name: string)
    ensures Lookup(entries, nameOf, name).NotUnique? <==> TwoMatches(entries, nameOf, name)
  {
    var r := Lookup(entries, nameOf, name);
    LookupNotFound(entries, nameOf, name);
    if TwoMatches(entries, nameOf, name) {
      var i, j :| 0 <= i < j < |entries| && nameOf(entries[i]) == name && nameOf(entries[j]) == name;
      if r.Found? {
        LookupFoundIsUnique(entries, nameOf, name);
      }
    }
    if r.NotUnique? {
      var i :| 0 <= i < |entries| && nameOf(entries[i]) == name;
      if !UniqueAt(entries, nameOf, name, i) {
        var j :| 0 <= j < |entries| && j != i && nameOf(entries[j]) == name;
        if i < j {
          assert 0 <= i < j < |entries| && nameOf(entries[i]) == name && nameOf(entries[j]) == name;
        } else {
          assert 0 <= j < i < |entries| && nameOf(entries[j]) == name && nameOf(entries[i]) == name;
        }
      } else {
        LookupUnique(entries, nameOf, name, i);
      }
    }
  }

  /** All four laws of the lookup at once, for callers that instantiate it. */
  lemma LookupLaws<T>(entries: seq<T>, nameOf: T -> string, name: string)
    ensures forall i :: UniqueAt(entries, nameOf, name, i) ==> Lookup(entries, nameOf, name) == Found(entries[i])
    ensures Lookup(entries, nameOf, name).Found? ==>
              exists i :: UniqueAt(entries, nameOf, name, i) && Lookup(entries, nameOf, name).entry == entries[i]
    ensures Lookup(entries, nameOf, name).NotFound? <==> NoMatch(entries, nameOf, name)
    ensures Lookup(entries, nameOf, name).NotUnique? <==> TwoMatches(entries, nameOf, name)
  {
    forall i | UniqueAt(entries, nameOf, name, i)
      ensures Lookup(entries, nameOf, name) == Found(entries[i])
    {
      LookupUnique(entries, nameOf, name, i);
    }
    if Lookup(entries, nameOf, name).Found? {
      LookupFoundIsUnique(entries, nameOf, name);
    }
    LookupNotFound(entries, nameOf, name);
    LookupNotUnique(entries, nameOf, name);
  }
}
