/** FIX tags and the sorted tag lists that tokenizers and group tables hold. */
module Tags {
  import opened Bytes
  import opened Sequences

  type Tag = t: int | 0 <= t <= U32_MAX

  /** Recorded for a run of bytes that is not a field. */
  const MALFORMED: Tag := 0
  const BODY_LENGTH: Tag := 9
  const CHECKSUM: Tag := 10
  const MSG_TYPE: Tag := 35

  /** Strictly increasing, so free of duplicates. */
  predicate IsSortedSet(tags: seq<Tag>) {
    forall i, j :: 0 <= i < j < |tags| ==> tags[i] < tags[j]
  }

  predicate IsSorted(tags: seq<Tag>) {
    forall i, j :: 0 <= i < j < |tags| ==> tags[i] <= tags[j]
  }

  function Insert(tags: seq<Tag>, tag: Tag): (r: seq<Tag>) {
    if tags == [] || tag <= tags[0] then [tag] + tags else [tags[0]] + Insert(tags[1..], tag)
  }

  lemma {:induction false} InsertAddsOne(tags: seq<Tag>, tag: Tag)
    ensures multiset(Insert(tags, tag)) == multiset(tags) + multiset{tag}
  {
    if tags != [] && tag > tags[0] {
      InsertAddsOne(tags[1..], tag);
      assert tags == [tags[0]] + tags[1..];
    }
  }

  lemma {:induction false} InsertKeepsSorted(tags: seq<Tag>, tag: Tag)
    requires IsSorted(tags)
    ensures IsSorted(Insert(tags, tag))
    ensures forall t :: t in Insert(tags, tag) ==> t == tag || t in tags
  {
    if tags != [] && tag > tags[0] {
      InsertKeepsSorted(tags[1..], tag);
      var rest := Insert(tags[1..], tag);
      forall i | 0 <= i < |rest| ensures tags[0] <= rest[i] {
        assert rest[i] in rest;
      }
    }
  }

  /** `sort`: the same tags, in order. */
  function Sort(tags: seq<Tag>): (r: seq<Tag>)
    ensures IsSorted(r) && multiset(r) == multiset(tags)
  {
    if tags == [] then []
    else
      assert tags == [tags[0]] + tags[1..];
      var rest := Sort(tags[1..]);
      InsertAddsOne(rest, tags[0]);
      InsertKeepsSorted(rest, tags[0]);
      Insert(rest, tags[0])
  }

  lemma SortKeepsMembers(tags: seq<Tag>, tag: Tag)
    ensures tag in Sort(tags) <==> tag in tags
  {
    assert tag in Sort(tags) <==> tag in multiset(Sort(tags));
    assert tag in tags <==> tag in multiset(tags);
  }

  lemma {:induction false} DistinctIsMultiplicityOne(tags: seq<Tag>)
    ensures Distinct(tags) <==> forall t :: multiset(tags)[t] <= 1
  {
    if tags != [] {
      var rest := tags[1..];
      DistinctIsMultiplicityOne(rest);
      assert tags == [tags[0]] + rest;
      assert multiset(tags) == multiset{tags[0]} + multiset(rest);
      if Distinct(tags) {
        assert Distinct(rest);
        assert tags[0] !in rest;
      } else {
        var i, j :| 0 <= i < j < |tags| && tags[i] == tags[j];
        if i == 0 {
          assert tags[0] == rest[j - 1];
          assert tags[0] in multiset(rest);
          assert multiset(tags)[tags[0]] >= 2;
        } else {
          assert rest[i - 1] == rest[j - 1] && !Distinct(rest);
          var t :| multiset(rest)[t] > 1;
          assert multiset(tags)[t] > 1;
        }
      }
    }
  }

  /** Sorting distinct tags gives a sorted set. */
  lemma SortOfDistinctIsSortedSet(tags: seq<Tag>)
    requires Distinct(tags)
    ensures IsSortedSet(Sort(tags))
  {
    DistinctIsMultiplicityOne(tags);
    DistinctIsMultiplicityOne(Sort(tags));
  }

  /** `sort` and then `dedup`: each tag once, in order. */
  method SortDedup(tags: seq<Tag>) returns (r: seq<Tag>)
    ensures IsSortedSet(r)
    ensures forall t :: t in r <==> t in tags
  {
    var sorted := Sort(tags);
    r := [];
    for i := 0 to |sorted|
      invariant IsSortedSet(r)
      invariant forall t :: t in r <==> t in sorted[..i]
      invariant if i == 0 then r == [] else r != [] && r[|r| - 1] == sorted[i - 1]
    {
      if r == [] || r[|r| - 1] != sorted[i] {
        assert i > 0 ==> sorted[i - 1] <= sorted[i];
        r := r + [sorted[i]];
      }
    }
    forall t ensures t in r <==> t in tags {
      SortKeepsMembers(tags, t);
    }
  }
}
