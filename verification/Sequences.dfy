/** Facts about sequences that several modules need. */
module Sequences {
  import opened Wrappers

  lemma Associates<T>(a: seq<T>, b: seq<T>, c: seq<T>)
    ensures a + b + c == a + (b + c)
  {
  }

  lemma FirstAndRest<T>(s: seq<T>)
    requires s != []
    ensures s == [s[0]] + s[1..]
  {
  }

  lemma SliceOfTake<T>(s: seq<T>, n: nat, from: nat, until: nat)
    requires from <= until <= n <= |s|
    ensures s[..n][from..until] == s[from..until]
  {
  }

  /** Sequences laid end to end. */
  function Joined<T>(parts: seq<seq<T>>): (r: seq<T>) {
    if parts == [] then [] else parts[0] + Joined(parts[1..])
  }

  lemma JoinedOne<T>(part: seq<T>)
    ensures Joined([part]) == part
  {
    assert [part][1..] == [];
  }

  lemma JoinedThen<T>(part: seq<T>, parts: seq<seq<T>>)
    ensures Joined([part] + parts) == part + Joined(parts)
  {
    assert ([part] + parts)[1..] == parts;
  }

  predicate Distinct<T(==)>(s: seq<T>) {
    forall i, j :: 0 <= i < j < |s| ==> s[i] != s[j]
  }

  function IndexOf<T(==)>(s: seq<T>, x: T): (r: Option<nat>)
    ensures r.Some? ==> r.value < |s| && s[r.value] == x
    ensures r.None? ==> x !in s
  {
    if s == [] then None
    else if s[|s| - 1] == x then Some(|s| - 1)
    else IndexOf(s[..|s| - 1], x)
  }

  /** The first element that equals an earlier one: where that one is, and where it is. */
  function FirstRepeat<T(==)>(s: seq<T>): (r: Option<(nat, nat)>)
    ensures r.Some? ==> r.value.0 < r.value.1 < |s| && s[r.value.0] == s[r.value.1] && Distinct(s[..r.value.1])
    ensures r.None? ==> Distinct(s)
  {
    if s == [] then None
    else
      var n := |s| - 1;
      match FirstRepeat(s[..n])
      case Some(repeat) =>
        assert s[..n][..repeat.1] == s[..repeat.1];
        Some(repeat)
      case None =>
        match IndexOf(s[..n], s[n])
        case Some(i) => Some((i, n))
        case None => None
  }

  lemma {:induction false} FirstRepeatStays<T>(s: seq<T>, n: nat)
    requires n <= |s| && FirstRepeat(s[..n]).Some?
    ensures FirstRepeat(s) == FirstRepeat(s[..n])
    decreases |s|
  {
    if n == |s| {
      assert s[..n] == s;
    } else {
      var before := s[..|s| - 1];
      assert before[..n] == s[..n];
      FirstRepeatStays(before, n);
    }
  }

  lemma RepeatedIffNotDistinct<T>(s: seq<T>)
    ensures FirstRepeat(s).Some? <==> !Distinct(s)
  {
    if FirstRepeat(s).Some? { var (i, j) := FirstRepeat(s).value; }
  }

  lemma FirstRepeatNext<T>(s: seq<T>, n: nat)
    requires n < |s| && s[n] in s[..n] && FirstRepeat(s[..n]) == None
    ensures IndexOf(s[..n], s[n]).Some? && FirstRepeat(s[..n + 1]) == Some((IndexOf(s[..n], s[n]).value, n))
  {
    assert s[..n + 1][..n] == s[..n];
  }

  /** The element at `n` repeats the only one before it that is equal. */
  lemma RepeatAt<T>(s: seq<T>, i: nat, n: nat)
    requires i < n < |s| && s[i] == s[n] && FirstRepeat(s[..n]) == None
    ensures FirstRepeat(s) == Some((i, n))
  {
    hide FirstRepeat;
    FirstRepeatNext(s, n);
    var k := IndexOf(s[..n], s[n]).value;
    assert Distinct(s[..n]) && s[..n][i] == s[..n][k];
    FirstRepeatStays(s, n + 1);
  }

  lemma NoRepeatAt<T>(s: seq<T>, n: nat)
    requires n < |s| && s[n] !in s[..n] && FirstRepeat(s[..n]) == None
    ensures FirstRepeat(s[..n + 1]) == None
  {
    assert s[..n + 1][..n] == s[..n];
  }

  lemma IndexOfNext<T>(s: seq<T>, n: nat, x: T)
    requires n < |s|
    ensures IndexOf(s[..n + 1], x) == if s[n] == x then Some(n) else IndexOf(s[..n], x)
  {
    assert s[..n + 1][..n] == s[..n];
  }

  /** `m` maps each element of `s` to where it is. */
  ghost predicate Indexes<T(!new)>(m: map<T, nat>, s: seq<T>) {
    forall x :: IndexOf(s, x) == if x in m then Some(m[x]) else None
  }

  /** Maps each element to where it is, unless one repeats. */
  method IndexEach<T(==, !new)>(s: seq<T>) returns (seen: map<T, nat>, repeat: Option<(nat, nat)>)
    ensures repeat == FirstRepeat(s)
    ensures repeat.None? ==> Indexes(seen, s)
  {
    hide FirstRepeat, IndexOf;
    seen := map[];
    NothingIndexed<T>();
    for n := 0 to |s|
      invariant FirstRepeat(s[..n]) == None && Indexes(seen, s[..n])
    {
      if s[n] in seen {
        assert IndexOf(s[..n], s[n]) == Some(seen[s[n]]);
        RepeatAt(s, seen[s[n]], n);
        return seen, Some((seen[s[n]], n));
      }
      assert IndexOf(s[..n], s[n]) == None;
      NoRepeatAt(s, n);
      IndexesNext(seen, s, n);
      seen := seen[s[n] := n];
    }
    assert s[..|s|] == s;
    return seen, None;
  }

  lemma NothingIndexed<T(!new)>()
    ensures FirstRepeat<T>([]) == None && Indexes<T>(map[], [])
  {
  }

  lemma IndexesNext<T(!new)>(m: map<T, nat>, s: seq<T>, n: nat)
    requires n < |s| && Indexes(m, s[..n])
    ensures Indexes(m[s[n] := n], s[..n + 1])
  {
    hide IndexOf;
    var more, next := m[s[n] := n], s[..n + 1];
    forall x ensures IndexOf(next, x) == if x in more then Some(more[x]) else None {
      IndexOfNext(s, n, x);
      assert IndexOf(s[..n], x) == if x in m then Some(m[x]) else None;
    }
  }
}
