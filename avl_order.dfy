/**
 * Reference definitions on sorted association lists (the symmetric order of a tree):
 * lookup, insertion and removal of one key. The tree operations are proved against them.
 */
module AvlOrder {
  import opened AvlCore

  ghost predicate Below<V>(s: seq<(int, V)>, k: int)
  {
    forall i :: 0 <= i < |s| ==> s[i].0 < k
  }

  ghost predicate Above<V>(s: seq<(int, V)>, k: int)
  {
    forall i :: 0 <= i < |s| ==> k < s[i].0
  }

  /** The info stored under k in an association list, None when k is absent. */
  function Lookup<V>(s: seq<(int, V)>, k: int): Option<V>
  {
    if s == [] then None
    else if s[0].0 == k then Some(s[0].1)
    else Lookup(s[1..], k)
  }

  /** Insertion of (k, v) into a sorted list; a list that already holds k is left as it is. */
  function InsertEntry<V>(s: seq<(int, V)>, k: int, v: V): seq<(int, V)>
  {
    if s == [] then [(k, v)]
    else if k < s[0].0 then [(k, v)] + s
    else if k == s[0].0 then s
    else [s[0]] + InsertEntry(s[1..], k, v)
  }

  /** Removal of every entry with key k. */
  function RemoveEntry<V>(s: seq<(int, V)>, k: int): seq<(int, V)>
  {
    if s == [] then []
    else (if s[0].0 == k then [] else [s[0]]) + RemoveEntry(s[1..], k)
  }

  lemma SortedSplit<V>(a: seq<(int, V)>, b: seq<(int, V)>)
    requires Sorted(a + b)
    ensures Sorted(a) && Sorted(b)
    ensures forall i, j :: 0 <= i < |a| && 0 <= j < |b| ==> a[i].0 < b[j].0
  {
    forall i, j | 0 <= i < |a| && 0 <= j < |b| ensures a[i].0 < b[j].0 {
      assert (a + b)[i] == a[i] && (a + b)[|a| + j] == b[j];
    }
    forall i, j | 0 <= i < j < |b| ensures b[i].0 < b[j].0 {
      assert (a + b)[|a| + i] == b[i] && (a + b)[|a| + j] == b[j];
    }
    forall i, j | 0 <= i < j < |a| ensures a[i].0 < a[j].0 {
      assert (a + b)[i] == a[i] && (a + b)[j] == a[j];
    }
  }

  /** Dropping one entry from a sorted list keeps it sorted. */
  lemma SortedDropMiddle<V>(a: seq<(int, V)>, e: (int, V), b: seq<(int, V)>)
    requires Sorted(a + [e] + b)
    ensures Sorted(a + b)
    ensures Below(a, e.0) && Above(b, e.0)
  {
    var s := a + [e] + b;
    forall i | 0 <= i < |a| ensures a[i].0 < e.0 {
      assert s[i] == a[i] && s[|a|] == e;
    }
    forall i | 0 <= i < |b| ensures e.0 < b[i].0 {
      assert s[|a| + 1 + i] == b[i] && s[|a|] == e;
    }
    forall i, j | 0 <= i < j < |a + b| ensures (a + b)[i].0 < (a + b)[j].0 {
      var i' := if i < |a| then i else i + 1;
      var j' := if j < |a| then j else j + 1;
      assert s[i'] == (a + b)[i] && s[j'] == (a + b)[j];
    }
  }

  /** Putting an entry between two sorted lists that it separates gives a sorted list. */
  lemma SortedInsertMiddle<V>(a: seq<(int, V)>, e: (int, V), b: seq<(int, V)>)
    requires Sorted(a + b) && Below(a, e.0) && Above(b, e.0)
    ensures Sorted(a + [e] + b)
  {
    var s := a + [e] + b;
    forall i, j | 0 <= i < j < |s| ensures s[i].0 < s[j].0 {
      if i < |a| && j > |a| {
        assert s[i] == (a + b)[i] && s[j] == (a + b)[j - 1];
      } else if i > |a| {
        assert s[i] == (a + b)[i - 1] && s[j] == (a + b)[j - 1];
      } else if j < |a| {
        assert s[i] == (a + b)[i] && s[j] == (a + b)[j];
      }
    }
  }

  /** `next` holds the smallest key of s above `key`, or is None when no key of s is above it. */
  ghost predicate IsNext<V>(s: seq<(int, V)>, key: int, next: Option<(int, V)>)
  {
    && (next.Some? ==> next.value in s && key < next.value.0 &&
                       forall e :: e in s && key < e.0 ==> next.value.0 <= e.0)
    && (next.None? ==> forall e :: e in s ==> e.0 <= key)
  }

  /** In a sorted list the entry right after e holds the smallest key above e's key;
      when nothing follows e, e's key is the largest. */
  lemma SortedNext<V>(front: seq<(int, V)>, e: (int, V), rest: seq<(int, V)>, next: Option<(int, V)>)
    requires Sorted(front + [e] + rest)
    requires next == if rest == [] then None else Some(rest[0])
    ensures IsNext(front + [e] + rest, e.0, next)
  {
    var s := front + [e] + rest;
    var i := |front|;
    assert s[i] == e;
    forall x | x in s ensures x.0 <= e.0 || (rest != [] && rest[0].0 <= x.0) {
      var j :| 0 <= j < |s| && s[j] == x;
      if j > i + 1 {
        assert s[i + 1] == rest[0];
        assert s[i + 1].0 < s[j].0;
      } else if j < i {
        assert s[j].0 < s[i].0;
      } else if j == i + 1 {
        assert s[j] == rest[0];
      }
    }
    if rest != [] {
      assert s[i + 1] == rest[0];
      assert s[i].0 < s[i + 1].0;
    }
  }

  lemma {:induction false} InsertEntryBetween<V>(a: seq<(int, V)>, b: seq<(int, V)>, k: int, v: V)
    requires Below(a, k) && Above(b, k)
    ensures InsertEntry(a + b, k, v) == a + [(k, v)] + b
  {
    if a == [] {
      assert a + b == b;
    } else {
      assert (a + b)[0] == a[0] && (a + b)[1..] == a[1..] + b;
      InsertEntryBetween(a[1..], b, k, v);
    }
  }

  /** An entry whose key separates the two halves of a sorted list goes between them. */
  lemma InsertBetween<V>(a: seq<(int, V)>, b: seq<(int, V)>, k: int, v: V)
    requires Sorted(a + b) && Below(a, k) && Above(b, k)
    ensures InsertEntry(a + b, k, v) == a + [(k, v)] + b
    ensures Sorted(a + [(k, v)] + b) && |a + [(k, v)] + b| == |a + b| + 1
  {
    InsertEntryBetween(a, b, k, v);
    SortedInsertMiddle(a, (k, v), b);
  }

  /** Inserting a key that a sorted list already holds (at index j) leaves the list as it is. */
  lemma {:induction false} InsertEntryPresent<V>(s: seq<(int, V)>, j: int, v: V)
    requires Sorted(s) && 0 <= j < |s|
    ensures InsertEntry(s, s[j].0, v) == s
  {
    if j > 0 {
      assert s[0].0 < s[j].0;
      assert s[1..][j - 1] == s[j];
      SortedTail(s);
      InsertEntryPresent(s[1..], j - 1, v);
      assert [s[0]] + s[1..] == s;
    }
  }

  lemma {:induction false} RemoveEntryAppend<V>(a: seq<(int, V)>, b: seq<(int, V)>, k: int)
    ensures RemoveEntry(a + b, k) == RemoveEntry(a, k) + RemoveEntry(b, k)
  {
    if a == [] {
      assert a + b == b;
    } else {
      assert (a + b)[0] == a[0] && (a + b)[1..] == a[1..] + b;
      RemoveEntryAppend(a[1..], b, k);
    }
  }

  lemma {:induction false} RemoveEntryAbsent<V>(s: seq<(int, V)>, k: int)
    requires forall i :: 0 <= i < |s| ==> s[i].0 != k
    ensures RemoveEntry(s, k) == s
  {
    if s != [] {
      RemoveEntryAbsent(s[1..], k);
    }
  }

  /** Removing the key of an entry that splits a sorted list leaves the two sides. */
  lemma RemoveEntryBetween<V>(a: seq<(int, V)>, e: (int, V), b: seq<(int, V)>)
    requires Sorted(a + [e] + b)
    ensures RemoveEntry(a + [e] + b, e.0) == a + b
  {
    SortedDropMiddle(a, e, b);
    RemoveEntryAppend(a + [e], b, e.0);
    RemoveEntryAppend(a, [e], e.0);
    RemoveEntryAbsent(a, e.0);
    RemoveEntryAbsent(b, e.0);
    assert RemoveEntry([e], e.0) == [];
  }

  lemma {:induction false} LookupAppend<V>(a: seq<(int, V)>, b: seq<(int, V)>, k: int)
    ensures Lookup(a + b, k) == if Lookup(a, k).Some? then Lookup(a, k) else Lookup(b, k)
  {
    if a == [] {
      assert a + b == b;
    } else {
      assert (a + b)[0] == a[0] && (a + b)[1..] == a[1..] + b;
      LookupAppend(a[1..], b, k);
    }
  }

  lemma {:induction false} LookupAbsent<V>(s: seq<(int, V)>, k: int)
    requires forall i :: 0 <= i < |s| ==> s[i].0 != k
    ensures Lookup(s, k) == None
  {
    if s != [] {
      LookupAbsent(s[1..], k);
    }
  }

  lemma SortedTail<V>(s: seq<(int, V)>)
    requires Sorted(s) && s != []
    ensures Sorted(s[1..])
  {
    forall a, b | 0 <= a < b < |s| - 1 ensures s[1..][a].0 < s[1..][b].0 {
      assert s[1..][a] == s[a + 1] && s[1..][b] == s[b + 1];
    }
  }

  /** In a sorted list every entry is what lookup finds under its key. */
  lemma {:induction false} LookupAt<V>(s: seq<(int, V)>, i: int)
    requires Sorted(s) && 0 <= i < |s|
    ensures Lookup(s, s[i].0) == Some(s[i].1)
  {
    if i > 0 {
      assert s[0].0 < s[i].0;
      SortedTail(s);
      LookupAt(s[1..], i - 1);
      assert s[1..][i - 1] == s[i];
    }
  }

  /** What lookup finds is an entry of the list. */
  lemma {:induction false} LookupSome<V>(s: seq<(int, V)>, k: int)
    requires Lookup(s, k).Some?
    ensures (k, Lookup(s, k).value) in s
  {
    if s[0].0 != k {
      LookupSome(s[1..], k);
      var j :| 0 <= j < |s| - 1 && s[1..][j] == (k, Lookup(s, k).value);
      assert s[j + 1] == s[1..][j];
    }
  }

  lemma {:induction false} KeysLength<V>(s: seq<(int, V)>)
    ensures |Keys(s)| == |s| && |Infos(s)| == |s|
    ensures forall i :: 0 <= i < |s| ==> Keys(s)[i] == s[i].0 && Infos(s)[i] == s[i].1
  {
    if s != [] {
      KeysLength(s[1..]);
    }
  }
}
