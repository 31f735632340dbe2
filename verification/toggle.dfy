/** The action behind a tag button: flip one kind's tag in the cell's
    metadata and its marker class on the cell's node. */
module TagToggle {
  import opened Optional
  import opened Config
  import opened Notebook
  import Arrays

  /** `after` is `before` with exactly its first `t` deleted, the other
      elements kept in their order. */
  ghost predicate RemovedFirst(before: seq<string>, t: string, after: seq<string>) {
    exists i :: 0 <= i < |before| && before[i] == t && t !in before[..i]
      && after == before[..i] + before[i + 1..]
  }

  /** Toggle the tag of `kind` on `cell`. A missing tag list is first stored
      as the empty list; a present tag loses its first occurrence and its
      marker class, an absent one is appended and gains its marker class. */
  function Toggle(prefix: string, kind: Kind, cell: Cell): (r: Cell)
    ensures r.tags.Some?
    ensures var t, before, after := TagName(prefix, kind), TagsOf(cell), r.tags.value;
      t !in before ==> after == before + [t] && Marker(t) in r.classes
    ensures var t, before, after := TagName(prefix, kind), TagsOf(cell), r.tags.value;
      t in before ==> RemovedFirst(before, t, after) && Marker(t) !in r.classes
    ensures var t, before, after := TagName(prefix, kind), TagsOf(cell), r.tags.value;
      multiset(after) == if t in before then multiset(before) - multiset{t}
                         else multiset(before) + multiset{t}
    ensures r.classes - {Marker(TagName(prefix, kind))} == cell.classes - {Marker(TagName(prefix, kind))}
  {
    var tagList := TagsOf(cell);
    var tagname := TagName(prefix, kind);
    if tagname in tagList then
      var index := Arrays.IndexOf(tagList, tagname);
      var tags := if index > -1 then Arrays.Splice(tagList, index) else tagList;
      Cell(Some(tags), cell.classes - {Marker(tagname)})
    else
      Cell(Some(tagList + [tagname]), cell.classes + {Marker(tagname)})
  }

  /** Toggling changes no other tag: every other string occurs as often as before. */
  lemma ToggleLeavesOtherTags(prefix: string, kind: Kind, cell: Cell, x: string)
    requires x != TagName(prefix, kind)
    ensures Arrays.Count(Toggle(prefix, kind, cell).tags.value, x) == Arrays.Count(TagsOf(cell), x)
  {
  }

  /** Toggling one kind leaves the tag and marker of every other kind alone. */
  lemma {:induction false} ToggleLeavesOtherKinds(prefix: string, kind: Kind, other: Kind, cell: Cell)
    requires other != kind
    ensures var r := Toggle(prefix, kind, cell);
      && Arrays.Count(r.tags.value, TagName(prefix, other)) == Arrays.Count(TagsOf(cell), TagName(prefix, other))
      && (Marker(TagName(prefix, other)) in r.classes <==> Marker(TagName(prefix, other)) in cell.classes)
  {
    TagNameInjective(prefix, kind, other);
    MarkerInjective(TagName(prefix, kind), TagName(prefix, other));
  }

  /** A cell without a tag list ends up with exactly the one tag and its marker. */
  lemma ToggleMissingTags(prefix: string, kind: Kind, classes: set<string>)
    ensures Toggle(prefix, kind, Cell(None, classes))
         == Cell(Some([TagName(prefix, kind)]), classes + {Marker(TagName(prefix, kind))})
  {
    assert [] + [TagName(prefix, kind)] == [TagName(prefix, kind)];
  }

  /** After one toggle, tag membership and marker presence agree, provided
      the tag occurred at most once; with a duplicate the tag stays while the
      marker goes. */
  lemma {:induction false} ToggleAgreement(prefix: string, kind: Kind, cell: Cell)
    ensures var t, r := TagName(prefix, kind), Toggle(prefix, kind, cell);
      Arrays.Count(TagsOf(cell), t) <= 1 ==> (t in r.tags.value <==> Marker(t) in r.classes)
    ensures var t, r := TagName(prefix, kind), Toggle(prefix, kind, cell);
      Arrays.Count(TagsOf(cell), t) >= 2 ==> t in r.tags.value && Marker(t) !in r.classes
  {
    var t, r := TagName(prefix, kind), Toggle(prefix, kind, cell);
    assert Arrays.Count(TagsOf(cell), t) > 0 <==> t in TagsOf(cell);
    assert Arrays.Count(r.tags.value, t) > 0 <==> t in r.tags.value;
  }

  /** Two toggles of a tag that was absent give back the list unchanged and
      leave the marker removed. */
  lemma {:induction false} ToggleTwiceAbsent(prefix: string, kind: Kind, cell: Cell)
    requires TagName(prefix, kind) !in TagsOf(cell)
    ensures var r := Toggle(prefix, kind, Toggle(prefix, kind, cell));
      r.tags == Some(TagsOf(cell)) && r.classes == cell.classes - {Marker(TagName(prefix, kind))}
  {
    var t, before := TagName(prefix, kind), TagsOf(cell);
    var appended := before + [t];
    assert appended[..|before|] == before;
    var index := Arrays.IndexOf(appended, t);
    assert index == |before|;
    assert Arrays.Splice(appended, index) == before;
  }

  /** A set that agrees with `c` away from `m` and holds `m` is `c` plus `m`. */
  lemma {:induction false} AddedBack(c: set<string>, d: set<string>, m: string)
    requires d - {m} == c - {m} && m in d
    ensures d == c + {m}
  {
    forall x | x != m
      ensures x in d <==> x in c
    {
      assert x in d <==> x in d - {m};
      assert x in c <==> x in c - {m};
    }
  }

  /** Two toggles of a tag that occurred exactly once keep it, once, at the
      end of the list: membership and the multiset of tags are restored, the
      order in general is not, and the marker is present afterwards. */
  lemma {:induction false} ToggleTwiceOnce(prefix: string, kind: Kind, cell: Cell)
    requires Arrays.Count(TagsOf(cell), TagName(prefix, kind)) == 1
    ensures var t, r := TagName(prefix, kind), Toggle(prefix, kind, Toggle(prefix, kind, cell));
      && RemovedFirst(TagsOf(cell), t, r.tags.value[..|r.tags.value| - 1])
      && r.tags.value == r.tags.value[..|r.tags.value| - 1] + [t]
      && multiset(r.tags.value) == multiset(TagsOf(cell))
      && r.classes == cell.classes + {Marker(t)}
  {
    var t, m, before := TagName(prefix, kind), Marker(TagName(prefix, kind)), TagsOf(cell);
    var once := Toggle(prefix, kind, cell);
    var mid := once.tags.value;
    assert RemovedFirst(before, t, mid) && multiset(mid) == multiset(before) - multiset{t}
        && once.classes - {m} == cell.classes - {m} by {
      assert multiset(before)[t] == 1;
    }
    assert t !in mid by {
      assert multiset(mid)[t] == 0;
    }
    var r := Toggle(prefix, kind, once);
    assert r.tags.value == mid + [t] && m in r.classes && r.classes - {m} == once.classes - {m} by {
      assert TagsOf(once) == mid;
    }
    assert r.tags.value[..|r.tags.value| - 1] == mid;
    AddedBack(cell.classes, r.classes, m);
  }

  /** With duplicates, two toggles delete two occurrences. */
  lemma {:induction false} ToggleTwiceDuplicate(prefix: string, kind: Kind, cell: Cell)
    requires Arrays.Count(TagsOf(cell), TagName(prefix, kind)) >= 2
    ensures var t, r := TagName(prefix, kind), Toggle(prefix, kind, Toggle(prefix, kind, cell));
      multiset(r.tags.value) == multiset(TagsOf(cell)) - multiset{t, t}
  {
    var t, before := TagName(prefix, kind), TagsOf(cell);
    var once := Toggle(prefix, kind, cell);
    var mid := once.tags.value;
    assert multiset(mid) == multiset(before) - multiset{t} by {
      assert multiset(before)[t] >= 2;
    }
    var r := Toggle(prefix, kind, once);
    assert multiset(r.tags.value) == multiset(mid) - multiset{t} by {
      assert TagsOf(once) == mid;
      assert multiset(mid)[t] >= 1;
    }
  }

  /** With duplicates, both toggles take the removing branch, so the marker
      ends removed: the class set comes back exactly when it had no marker. */
  lemma {:induction false} ToggleTwiceDuplicateClasses(prefix: string, kind: Kind, cell: Cell)
    requires Arrays.Count(TagsOf(cell), TagName(prefix, kind)) >= 2
    ensures var m, r := Marker(TagName(prefix, kind)), Toggle(prefix, kind, Toggle(prefix, kind, cell));
      && r.classes == cell.classes - {m}
      && (r.classes == cell.classes <==> m !in cell.classes)
  {
    var t, m := TagName(prefix, kind), Marker(TagName(prefix, kind));
    var once := Toggle(prefix, kind, cell);
    var r := Toggle(prefix, kind, once);
    assert t in TagsOf(cell) && Arrays.Count(TagsOf(once), t) >= 1 by {
      ToggleCounts(prefix, kind, cell);
      assert t in TagsOf(cell) <==> Arrays.Count(TagsOf(cell), t) > 0;
    }
    assert t in TagsOf(once);
    assert m !in r.classes && r.classes - {m} == cell.classes - {m};
    if m in cell.classes {
      assert m in cell.classes - r.classes;
    }
  }

  /** A tag occurring once and last is deleted from the end. */
  lemma {:induction false} RemovedFirstOfLast(before: seq<string>, t: string, after: seq<string>)
    requires RemovedFirst(before, t, after)
    requires Arrays.Count(before, t) == 1
    ensures after + [t] == before <==> before[|before| - 1] == t
  {
    var i :| 0 <= i < |before| && before[i] == t && t !in before[..i]
      && after == before[..i] + before[i + 1..];
    assert before == before[..i + 1] + before[i + 1..];
    assert t in multiset(before[..i + 1]) by {
      assert before[..i + 1][i] == t;
    }
    assert t !in before[i + 1..];
    if before[|before| - 1] == t {
      assert before == before[..i] + [t];
    } else {
      assert (after + [t])[|before| - 1] == t;
    }
  }

  /** A double toggle gives back exactly the tag list iff the tag was absent,
      or occurred once as the last element. */
  lemma {:induction false} ToggleTwiceRestoresList(prefix: string, kind: Kind, cell: Cell)
    ensures var t, before := TagName(prefix, kind), TagsOf(cell);
      Toggle(prefix, kind, Toggle(prefix, kind, cell)).tags.value == before
      <==> t !in before || (Arrays.Count(before, t) == 1 && before[|before| - 1] == t)
  {
    var t, before := TagName(prefix, kind), TagsOf(cell);
    var once := Toggle(prefix, kind, cell);
    assert TagsOf(once) == once.tags.value;
    var after := Toggle(prefix, kind, once).tags.value;
    if t !in before {
      ToggleTwiceAbsent(prefix, kind, cell);
    } else if Arrays.Count(before, t) == 1 {
      assert t !in once.tags.value;
      assert after == once.tags.value + [t];
      RemovedFirstOfLast(before, t, once.tags.value);
    } else {
      ToggleTwiceDuplicate(prefix, kind, cell);
      assert multiset(after)[t] != multiset(before)[t];
    }
  }

  /** One toggle, counted: the tag loses an occurrence if it had one and
      otherwise gains its only one, and the marker ends up present exactly
      when the tag was absent. */
  lemma {:induction false} ToggleCounts(prefix: string, kind: Kind, cell: Cell)
    ensures var t, r := TagName(prefix, kind), Toggle(prefix, kind, cell);
      && TagsOf(r) == r.tags.value
      && Arrays.Count(r.tags.value, t) == (if t in TagsOf(cell) then Arrays.Count(TagsOf(cell), t) - 1 else 1)
      && (Marker(t) in r.classes <==> t !in TagsOf(cell))
  {
    var t, r := TagName(prefix, kind), Toggle(prefix, kind, cell);
    assert t in TagsOf(cell) <==> Arrays.Count(TagsOf(cell), t) > 0;
  }

  /** The bookkeeping of two toggles in a row, over their counts and class sets. */
  lemma {:induction false} TwoStepsRestore(t: string, m: string, n0: nat, n1: nat, n2: nat,
                                           c0: set<string>, c1: set<string>, c2: set<string>)
    requires n0 <= 1 && (m in c0 <==> n0 > 0)
    requires n1 == (if n0 > 0 then n0 - 1 else 1) && (m in c1 <==> n0 == 0) && c1 - {m} == c0 - {m}
    requires n2 == (if n1 > 0 then n1 - 1 else 1) && (m in c2 <==> n1 == 0) && c2 - {m} == c1 - {m}
    ensures (n2 > 0 <==> n0 > 0) && c2 == c0
  {
    forall x | x != m
      ensures x in c2 <==> x in c0
    {
      assert x in c2 <==> x in c2 - {m};
      assert x in c1 <==> x in c1 - {m};
      assert x in c0 <==> x in c0 - {m};
    }
  }

  /** On a cell whose marker agrees with its tag and whose tag occurs at most
      once, a double toggle restores tag membership and the class set exactly. */
  lemma {:induction false} ToggleTwiceRestoresState(prefix: string, kind: Kind, cell: Cell)
    requires Arrays.Count(TagsOf(cell), TagName(prefix, kind)) <= 1
    requires Marker(TagName(prefix, kind)) in cell.classes <==> TagName(prefix, kind) in TagsOf(cell)
    ensures var r := Toggle(prefix, kind, Toggle(prefix, kind, cell));
      && (TagName(prefix, kind) in r.tags.value <==> TagName(prefix, kind) in TagsOf(cell))
      && r.classes == cell.classes
  {
    var t, m := TagName(prefix, kind), Marker(TagName(prefix, kind));
    var once := Toggle(prefix, kind, cell);
    var r := Toggle(prefix, kind, once);
    var n0, n1, n2 := Arrays.Count(TagsOf(cell), t), Arrays.Count(TagsOf(once), t), Arrays.Count(r.tags.value, t);
    assert n1 == (if n0 > 0 then n0 - 1 else 1) && (m in once.classes <==> n0 == 0) by {
      ToggleCounts(prefix, kind, cell);
      assert t in TagsOf(cell) <==> n0 > 0;
    }
    assert n2 == (if n1 > 0 then n1 - 1 else 1) && (m in r.classes <==> n1 == 0) by {
      ToggleCounts(prefix, kind, once);
      assert t in TagsOf(once) <==> n1 > 0;
    }
    assert m in cell.classes <==> n0 > 0 by {
      assert t in TagsOf(cell) <==> n0 > 0;
    }
    TwoStepsRestore(t, m, n0, n1, n2, cell.classes, once.classes, r.classes);
    assert t in r.tags.value <==> n2 > 0;
    assert t in TagsOf(cell) <==> n0 > 0;
  }
}
