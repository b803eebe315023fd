/**
 * Facts about concatenation that the list-building functions of the move
 * generator rely on, stated once over plain sequences.
 */
module Seqs {

  lemma AppendAssoc<T>(a: seq<T>, s: seq<T>, u: seq<T>)
    ensures a + s + u == a + (s + u)
  {
  }

  lemma AppendEmpty<T>(a: seq<T>)
    ensures a + [] == a && [] + a == a
  {
  }

  /** Dropping the last element of a concatenation drops the last element of its second part. */
  lemma SnocSplit<T>(a: seq<T>, b: seq<T>)
    requires b != []
    ensures (a + b)[..|a + b| - 1] == a + b[..|b| - 1]
    ensures (a + b)[|a + b| - 1] == b[|b| - 1]
  {
    assert (a + b)[..|a + b| - 1] == a + b[..|b| - 1];
  }

  /** An element of a non-empty sequence is its last element or an element of what comes before. */
  lemma InSnoc<T>(s: seq<T>, c: T)
    requires s != []
    ensures c in s <==> c in s[..|s| - 1] || c == s[|s| - 1]
  {
    assert s == s[..|s| - 1] + [s[|s| - 1]];
  }

  lemma InAppend3<T>(a: seq<T>, b: seq<T>, d: seq<T>, c: T)
    ensures c in a + b + d <==> c in a || c in b || c in d
  {
  }

  /** The parts laid end to end, first part first. */
  function Joined<T>(parts: seq<seq<T>>): seq<T>
  {
    if parts == [] then [] else Joined(parts[..|parts| - 1]) + parts[|parts| - 1]
  }

  /** An element of the joined parts is an element of one of the parts, and conversely. */
  lemma {:induction false} InJoined<T>(parts: seq<seq<T>>, c: T)
    ensures c in Joined(parts) <==> exists j :: 0 <= j < |parts| && c in parts[j]
  {
    if parts != [] {
      var init := parts[..|parts| - 1];
      InJoined(init, c);
      assert forall j :: 0 <= j < |init| ==> init[j] == parts[j];
      if c in parts[|parts| - 1] {
        assert exists j :: 0 <= j < |parts| && c in parts[j];
      }
      if exists j :: 0 <= j < |parts| && c in parts[j] {
        var j :| 0 <= j < |parts| && c in parts[j];
        if j < |init| {
          assert c in init[j];
        }
      }
    }
  }
}
