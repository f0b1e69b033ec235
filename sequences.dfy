/** Sequence helpers shared by the modules of this model: Python's list and string idioms. */
module Sequences {

  /** No element occurs twice. */
  predicate NoDup<K(==)>(s: seq<K>)
  {
    forall i, j :: 0 <= i < j < |s| ==> s[i] != s[j]
  }

  /** In a sequence without repeats, the element at `p` differs from every other one. */
  lemma NoDupOthers<K>(s: seq<K>, p: int)
    requires NoDup(s) && 0 <= p < |s|
    ensures forall i :: 0 <= i < |s| && i != p ==> s[i] != s[p]
  {
  }

  /** The concatenation of the groups, in order. */
  function Flatten<K>(groups: seq<seq<K>>): seq<K>
  {
    if |groups| == 0 then [] else Flatten(groups[..|groups| - 1]) + groups[|groups| - 1]
  }

  lemma FlattenMember<K>(groups: seq<seq<K>>, i: int, j: int)
    requires 0 <= i < |groups| && 0 <= j < |groups[i]|
    ensures groups[i][j] in Flatten(groups)
  {
    if i < |groups| - 1 {
      FlattenMember(groups[..|groups| - 1], i, j);
    }
  }

  /** The groups before `i` flatten to a prefix of the whole. */
  lemma {:induction false} FlattenPrefix<K>(groups: seq<seq<K>>, i: int)
    requires 0 <= i <= |groups|
    ensures Flatten(groups[..i]) <= Flatten(groups)
  {
    if i < |groups| {
      var n := |groups| - 1;
      assert groups[..n][..i] == groups[..i];
      FlattenPrefix(groups[..n], i);
    } else {
      assert groups[..i] == groups;
    }
  }

  /** `list.index(x)`: the first position of `x`. */
  function IndexOf<K(==)>(s: seq<K>, x: K): (i: nat)
    requires x in s
    ensures i < |s| && s[i] == x && x !in s[..i]
  {
    if s[0] == x then 0
    else
      var j := IndexOf(s[1..], x);
      assert s[..1 + j] == [s[0]] + s[1..][..j];
      1 + j
  }

  /** `index` finds the first occurrence. */
  lemma IndexOfFirst<K>(s: seq<K>, j: int)
    requires 0 <= j < |s| && s[j] !in s[..j]
    ensures IndexOf(s, s[j]) == j
  {
  }

  /** `sep.join(parts)`. */
  function Join<K>(sep: seq<K>, parts: seq<seq<K>>): seq<K>
  {
    if |parts| == 0 then []
    else if |parts| == 1 then parts[0]
    else Join(sep, parts[..|parts| - 1]) + sep + parts[|parts| - 1]
  }

  /** Joining from the front: the first part, the separator, then the rest joined. */
  lemma {:induction false} JoinCons<K>(sep: seq<K>, p: seq<K>, rest: seq<seq<K>>)
    requires |rest| > 0
    ensures Join(sep, [p] + rest) == p + sep + Join(sep, rest)
  {
    var n := |rest| - 1;
    assert ([p] + rest)[..n + 1] == [p] + rest[..n];
    if n > 0 {
      JoinCons(sep, p, rest[..n]);
    }
  }

  /** `sub` occurs in `s` at position `k`. */
  predicate OccursAt<K(==)>(s: seq<K>, sub: seq<K>, k: int)
  {
    0 <= k <= |s| - |sub| && s[k..k + |sub|] == sub
  }

  /** Every part occurs in the joined sequence. */
  lemma {:induction false} JoinHasEveryPart<K>(sep: seq<K>, parts: seq<seq<K>>, i: int)
    requires 0 <= i < |parts|
    ensures exists k :: OccursAt(Join(sep, parts), parts[i], k)
  {
    var n := |parts| - 1;
    var j := Join(sep, parts);
    if n == 0 {
      assert OccursAt(j, parts[i], 0);
    } else if i == n {
      var a := Join(sep, parts[..n]) + sep;
      assert j == a + parts[n];
      assert OccursAt(j, parts[i], |a|);
    } else {
      JoinHasEveryPart(sep, parts[..n], i);
      var k :| OccursAt(Join(sep, parts[..n]), parts[..n][i], k);
      var a := Join(sep, parts[..n]);
      assert j == a + (sep + parts[n]);
      assert j[k..k + |parts[i]|] == a[k..k + |parts[i]|];
      assert OccursAt(j, parts[i], k);
    }
  }

  /** With two parts or more, the join is longer than its first part by a separator at least. */
  lemma {:induction false} JoinLonger<K>(sep: seq<K>, parts: seq<seq<K>>)
    requires |parts| >= 2
    ensures |Join(sep, parts)| >= |parts[0]| + |sep|
  {
    if |parts| > 2 {
      JoinLonger(sep, parts[..|parts| - 1]);
    }
  }

  /** `s.split(sep)`: the pieces between the separators; an empty sequence gives one empty piece. */
  function Split<K(==)>(s: seq<K>, sep: K): (r: seq<seq<K>>)
    ensures |r| > 0
    ensures forall p :: p in r ==> sep !in p
  {
    if sep !in s then [s]
    else
      var i := IndexOf(s, sep);
      [s[..i]] + Split(s[i + 1..], sep)
  }

  /** Splitting loses nothing: joining the pieces back with the separator gives the sequence. */
  lemma {:induction false} SplitJoin<K>(s: seq<K>, sep: K)
    ensures Join([sep], Split(s, sep)) == s
  {
    if sep in s {
      var i := IndexOf(s, sep);
      SplitJoin(s[i + 1..], sep);
      JoinCons([sep], s[..i], Split(s[i + 1..], sep));
      assert s == s[..i] + [sep] + s[i + 1..];
    }
  }

  /** Pieces without the separator inside are what splitting their join gives back. */
  lemma {:induction false} JoinSplit<K>(pieces: seq<seq<K>>, sep: K)
    requires |pieces| > 0 && forall p :: p in pieces ==> sep !in p
    ensures Split(Join([sep], pieces), sep) == pieces
  {
    assert pieces[0] in pieces;
    if |pieces| > 1 {
      var rest := Join([sep], pieces[1..]);
      JoinCons([sep], pieces[0], pieces[1..]);
      assert [pieces[0]] + pieces[1..] == pieces;
      var s := pieces[0] + [sep] + rest;
      assert s[|pieces[0]|] == sep;
      var i := IndexOf(s, sep);
      assert i == |pieces[0]| by {
        assert forall j :: 0 <= j < |pieces[0]| ==> s[j] == pieces[0][j];
      }
      assert s[..i] == pieces[0] && s[i + 1..] == rest;
      assert forall p :: p in pieces[1..] ==> p in pieces;
      JoinSplit(pieces[1..], sep);
    }
  }

  /** The white space `str.strip`, `str.rstrip` and `str.split()` remove (the ASCII ones). */
  predicate IsSpace(c: char)
  {
    c == ' ' || c == '\t' || c == '\n' || c == '\r' || c == '\U{000B}' || c == '\U{000C}'
  }
}
