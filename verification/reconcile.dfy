/** The scan run on every "fully rendered" notification: walk all cells and
    all their tags, and class each cell for the prefixed tags of renderable
    kinds. The scan only adds classes, and it throws, leaving the classes it
    has already added, on a prefixed tag that names no kind. */
module Reconcile {
  import opened Optional
  import opened Config
  import opened Notebook
  import opened Strings

  /** What stays of a prefixed tag once the prefix is taken out: `tag.replace(prefix, '')`. */
  function Remainder(prefix: string, tag: string): string {
    RemoveFirst(tag, prefix)
  }

  /** A tag the scan classes the cell for: it carries the prefix, the rest
      names a kind, and that kind is renderable. */
  predicate Renders(s: Settings, tag: string) {
    && StartsWith(tag, s.prefix)
    && var k := KindOf(Remainder(s.prefix, tag));
       k.Some? && k.value in s.render
  }

  /** A tag the scan throws on. The render flag is looked up as
      `tagButtonSpec[typ]['render']` before the kind is checked; that only
      throws when `tagButtonSpec[typ]` is undefined, that is when the rest is
      neither a kind nor one of the `members` an empty JavaScript array
      answers with a defined value (`length`, `push`, `constructor`, ...). */
  predicate Throws(s: Settings, members: set<string>, tag: string) {
    && StartsWith(tag, s.prefix)
    && KindOf(Remainder(s.prefix, tag)).None?
    && Remainder(s.prefix, tag) !in members
  }

  /** The markers a successful scan of `tags` adds. */
  function Marks(s: Settings, tags: seq<string>): set<string> {
    set t | t in tags && Renders(s, t) :: Marker(t)
  }

  /** No tag of `tags` makes the scan throw. */
  predicate Clean(s: Settings, members: set<string>, tags: seq<string>) {
    forall i :: 0 <= i < |tags| ==> !Throws(s, members, tags[i])
  }

  /** The state of a cell after its tags are scanned without a throw. */
  function Reconciled(s: Settings, c: Cell): Cell {
    Cell(c.tags, c.classes + Marks(s, TagsOf(c)))
  }

  /** The outcome of the inner loop over one cell's tags. */
  datatype TagScan = Finished(classes: set<string>) | Threw(classes: set<string>, at: nat)

  lemma {:induction false} MarksCons(s: Settings, tags: seq<string>)
    requires |tags| > 0
    ensures Marks(s, tags)
         == (if Renders(s, tags[0]) then {Marker(tags[0])} else {}) + Marks(s, tags[1..])
  {
    assert tags == [tags[0]] + tags[1..];
    assert forall t :: t in tags <==> t == tags[0] || t in tags[1..];
  }

  lemma {:induction false} CleanCons(s: Settings, members: set<string>, tags: seq<string>)
    requires |tags| > 0
    ensures Clean(s, members, tags) <==> !Throws(s, members, tags[0]) && Clean(s, members, tags[1..])
  {
    if !Throws(s, members, tags[0]) && Clean(s, members, tags[1..]) {
      forall i | 1 <= i < |tags|
        ensures !Throws(s, members, tags[i])
      {
        assert tags[i] == tags[1..][i - 1];
      }
    }
  }

  /** A throw later in the list is a throw of the whole list, one position on. */
  lemma {:induction false} ThrewLater(s: Settings, members: set<string>, tags: seq<string>,
                                      classes: set<string>, next: set<string>, j: nat, c: set<string>)
    requires |tags| > 0 && !Throws(s, members, tags[0])
    requires next == classes + (if Renders(s, tags[0]) then {Marker(tags[0])} else {})
    requires j < |tags| - 1 && Throws(s, members, tags[1..][j])
    requires Clean(s, members, tags[1..][..j]) && c == next + Marks(s, tags[1..][..j])
    ensures Throws(s, members, tags[j + 1]) && Clean(s, members, tags[..j + 1])
    ensures c == classes + Marks(s, tags[..j + 1])
  {
    var front := tags[..j + 1];
    assert front[0] == tags[0] && front[1..] == tags[1..][..j];
    MarksCons(s, front);
    CleanCons(s, members, front);
  }

  /** The inner loop: scan `tags` in order, starting from `classes`. */
  function ScanTags(s: Settings, members: set<string>, tags: seq<string>, classes: set<string>): (r: TagScan)
    ensures r.Finished? <==> Clean(s, members, tags)
    ensures r.Finished? ==> r.classes == classes + Marks(s, tags)
    ensures r.Threw? ==> && r.at < |tags| && Throws(s, members, tags[r.at])
                         && Clean(s, members, tags[..r.at])
                         && r.classes == classes + Marks(s, tags[..r.at])
  {
    if |tags| == 0 then Finished(classes)
    else
      var tag := tags[0];
      CleanCons(s, members, tags);
      if Throws(s, members, tag) then
        Threw(classes, 0)
      else
        var next := if Renders(s, tag) then classes + {Marker(tag)} else classes;
        var rest := ScanTags(s, members, tags[1..], next);
        if rest.Finished? then
          MarksCons(s, tags);
          Finished(rest.classes)
        else
          ThrewLater(s, members, tags, classes, next, rest.at, rest.classes);
          Threw(rest.classes, rest.at + 1)
  }

  /** The outcome of a scan over all cells: the cells with their classes as
      the scan left them, and, on a throw, where it stopped. */
  datatype Outcome =
    | Done(cells: seq<Cell>)
    | Aborted(cells: seq<Cell>, cell: nat, tag: nat)

  /** `after` holds the same cells as `before`, with the same tag lists and
      at least the classes they had. */
  predicate Grown(before: seq<Cell>, after: seq<Cell>) {
    && |after| == |before|
    && forall i :: 0 <= i < |before| ==> after[i].tags == before[i].tags && before[i].classes <= after[i].classes
  }

  /** No tag of the first `n` cells makes the scan throw. */
  predicate CleanBefore(s: Settings, members: set<string>, cells: seq<Cell>, n: nat) {
    forall i :: 0 <= i < n && i < |cells| ==> Clean(s, members, TagsOf(cells[i]))
  }

  /** The first `n` cells of `after` are those of `before`, reconciled. */
  predicate ReconciledBefore(s: Settings, before: seq<Cell>, after: seq<Cell>, n: nat) {
    forall i :: 0 <= i < n && i < |before| && i < |after| ==> after[i] == Reconciled(s, before[i])
  }

  /** The cells of `after` beyond position `n` are those of `before`, untouched. */
  predicate UntouchedAfter(before: seq<Cell>, after: seq<Cell>, n: nat) {
    forall i :: n < i < |before| && i < |after| ==> after[i] == before[i]
  }

  /** Cell `c` of `before` throws at its tag `t`, after the marks of the
      tags ahead of it were added, giving cell `c` of `after`. */
  predicate StoppedAt(s: Settings, members: set<string>, before: seq<Cell>, after: seq<Cell>, c: nat, t: nat) {
    && c < |before| && c < |after| && t < |TagsOf(before[c])|
    && Throws(s, members, TagsOf(before[c])[t])
    && Clean(s, members, TagsOf(before[c])[..t])
    && after[c].classes == before[c].classes + Marks(s, TagsOf(before[c])[..t])
  }

  /** A cell holding a throwing tag is not clean. */
  lemma ThrowingNotClean(s: Settings, members: set<string>, tags: seq<string>, t: nat)
    requires t < |tags| && Throws(s, members, tags[t])
    ensures !Clean(s, members, tags)
  {
  }

  lemma {:induction false} CheckTagsDoneCons(s: Settings, members: set<string>, cells: seq<Cell>, first: Cell, rest: seq<Cell>)
    requires |cells| > 0 && Clean(s, members, TagsOf(cells[0])) && first == Reconciled(s, cells[0])
    requires Grown(cells[1..], rest) && CleanBefore(s, members, cells[1..], |rest|)
    requires ReconciledBefore(s, cells[1..], rest, |rest|)
    ensures Grown(cells, [first] + rest) && CleanBefore(s, members, cells, |cells|)
    ensures ReconciledBefore(s, cells, [first] + rest, |cells|)
  {
    var r := [first] + rest;
    forall i | 1 <= i < |cells|
      ensures r[i] == Reconciled(s, cells[i]) && Clean(s, members, TagsOf(cells[i]))
    {
      assert r[i] == rest[i - 1] && cells[i] == cells[1..][i - 1];
    }
  }

  lemma {:induction false} CheckTagsAbortedCons(s: Settings, members: set<string>, cells: seq<Cell>, first: Cell,
                                                rest: seq<Cell>, c: nat, t: nat)
    requires |cells| > 0 && Clean(s, members, TagsOf(cells[0])) && first == Reconciled(s, cells[0])
    requires Grown(cells[1..], rest) && StoppedAt(s, members, cells[1..], rest, c, t)
    requires CleanBefore(s, members, cells[1..], c) && ReconciledBefore(s, cells[1..], rest, c)
    requires UntouchedAfter(cells[1..], rest, c)
    ensures Grown(cells, [first] + rest) && StoppedAt(s, members, cells, [first] + rest, c + 1, t)
    ensures CleanBefore(s, members, cells, c + 1) && ReconciledBefore(s, cells, [first] + rest, c + 1)
    ensures UntouchedAfter(cells, [first] + rest, c + 1)
    ensures !CleanBefore(s, members, cells, |cells|)
  {
    var r := [first] + rest;
    forall i | 1 <= i < |cells|
      ensures r[i] == rest[i - 1] && cells[i] == cells[1..][i - 1]
    {
    }
    ThrowingNotClean(s, members, TagsOf(cells[c + 1]), t);
  }

  lemma {:induction false} CheckTagsAbortedFirst(s: Settings, members: set<string>, cells: seq<Cell>, classes: set<string>, t: nat)
    requires |cells| > 0 && t < |TagsOf(cells[0])|
    requires Throws(s, members, TagsOf(cells[0])[t]) && Clean(s, members, TagsOf(cells[0])[..t])
    requires classes == cells[0].classes + Marks(s, TagsOf(cells[0])[..t])
    ensures var r := [Cell(cells[0].tags, classes)] + cells[1..];
      && Grown(cells, r) && StoppedAt(s, members, cells, r, 0, t)
      && UntouchedAfter(cells, r, 0) && !CleanBefore(s, members, cells, |cells|)
  {
    var r := [Cell(cells[0].tags, classes)] + cells[1..];
    forall i | 1 <= i < |cells|
      ensures r[i] == cells[i]
    {
      assert r[i] == cells[1..][i - 1];
    }
    ThrowingNotClean(s, members, TagsOf(cells[0]), t);
  }

  /** `check_tags`: scan the cells in order. A cell without a tag list is
      skipped; a throw ends the whole scan. */
  function CheckTags(s: Settings, members: set<string>, cells: seq<Cell>): (r: Outcome)
    ensures Grown(cells, r.cells)
    ensures r.Done? <==> CleanBefore(s, members, cells, |cells|)
    ensures r.Done? ==> ReconciledBefore(s, cells, r.cells, |cells|)
    ensures r.Aborted? ==>
      && StoppedAt(s, members, cells, r.cells, r.cell, r.tag)
      && CleanBefore(s, members, cells, r.cell) && ReconciledBefore(s, cells, r.cells, r.cell)
      && UntouchedAfter(cells, r.cells, r.cell)
  {
    if |cells| == 0 then Done([])
    else
      var c := cells[0];
      match ScanTags(s, members, TagsOf(c), c.classes)
      case Threw(classes, j) =>
        CheckTagsAbortedFirst(s, members, cells, classes, j);
        Aborted([Cell(c.tags, classes)] + cells[1..], 0, j)
      case Finished(classes) =>
        var first := Cell(c.tags, classes);
        match CheckTags(s, members, cells[1..])
        case Done(rest) =>
          CheckTagsDoneCons(s, members, cells, first, rest);
          Done([first] + rest)
        case Aborted(rest, i, j) =>
          CheckTagsAbortedCons(s, members, cells, first, rest, i, j);
          Aborted([first] + rest, i + 1, j)
  }

  /** The tags the scan classes for are exactly the tag names of the
      renderable kinds, so its marker for a kind is the one the toggle uses. */
  lemma {:induction false} RendersIff(s: Settings, tag: string)
    ensures Renders(s, tag) <==> exists k :: k in s.render && tag == TagName(s.prefix, k)
  {
    if Renders(s, tag) {
      var k := KindOf(Remainder(s.prefix, tag)).value;
      RemovePrefixRoundTrip(tag, s.prefix);
      assert tag == TagName(s.prefix, k);
    }
    if exists k :: k in s.render && tag == TagName(s.prefix, k) {
      var k :| k in s.render && tag == TagName(s.prefix, k);
      assert tag[..|s.prefix|] == s.prefix;
      assert tag[|s.prefix|..] == Name(k);
      KindOfName(k);
    }
  }

  /** A kind that is not renderable never gets its marker from a scan, and
      neither does a tag without the prefix. */
  lemma {:induction false} MarksOnlyRenderable(s: Settings, tags: seq<string>, m: string)
    requires m in Marks(s, tags)
    ensures exists k :: k in s.render && TagName(s.prefix, k) in tags && m == Marker(TagName(s.prefix, k))
    ensures exists t :: t in tags && StartsWith(t, s.prefix) && m == Marker(t)
  {
    var t :| t in tags && Renders(s, t) && m == Marker(t);
    RendersIff(s, t);
  }

  /** Every renderable kind whose tag is in the list has its marker among the scan's marks. */
  lemma {:induction false} MarksEveryRenderable(s: Settings, tags: seq<string>, k: Kind)
    requires k in s.render && TagName(s.prefix, k) in tags
    ensures Marker(TagName(s.prefix, k)) in Marks(s, tags)
  {
    RendersIff(s, TagName(s.prefix, k));
  }

  /** After a successful scan a cell carries a marker iff it carried it before
      or the marker belongs to a renderable kind whose tag the cell has. */
  lemma {:induction false} CheckTagsMarkers(s: Settings, members: set<string>, cells: seq<Cell>, i: nat, m: string)
    requires CheckTags(s, members, cells).Done? && i < |cells|
    ensures m in CheckTags(s, members, cells).cells[i].classes
        <==> || m in cells[i].classes
             || exists k :: k in s.render && TagName(s.prefix, k) in TagsOf(cells[i])
                         && m == Marker(TagName(s.prefix, k))
  {
    var tags := TagsOf(cells[i]);
    if m in Marks(s, tags) {
      MarksOnlyRenderable(s, tags, m);
    }
    if exists k :: k in s.render && TagName(s.prefix, k) in tags && m == Marker(TagName(s.prefix, k)) {
      var k :| k in s.render && TagName(s.prefix, k) in tags && m == Marker(TagName(s.prefix, k));
      MarksEveryRenderable(s, tags, k);
    }
  }

  lemma {:induction false} MarksOfPrefix(s: Settings, tags: seq<string>, n: nat)
    requires n <= |tags|
    ensures Marks(s, tags[..n]) <= Marks(s, tags)
  {
    forall m | m in Marks(s, tags[..n])
      ensures m in Marks(s, tags)
    {
      var t :| t in tags[..n] && Renders(s, t) && m == Marker(t);
      assert t in tags;
    }
  }

  /** Whatever the outcome, the scan adds to a cell only markers of its
      prefixed tags of renderable kinds: a tag without the prefix, or of a
      kind that is not renderable, never produces a class. */
  lemma {:induction false} CheckTagsAddsOnlyMarks(s: Settings, members: set<string>, cells: seq<Cell>, i: nat, m: string)
    requires i < |cells|
    requires m in CheckTags(s, members, cells).cells[i].classes && m !in cells[i].classes
    ensures exists k :: k in s.render && TagName(s.prefix, k) in TagsOf(cells[i]) && m == Marker(TagName(s.prefix, k))
  {
    var r := CheckTags(s, members, cells);
    var tags := TagsOf(cells[i]);
    if r.Aborted? && i == r.cell {
      MarksOfPrefix(s, tags, r.tag);
    }
    assert m in Marks(s, tags);
    MarksOnlyRenderable(s, tags, m);
  }

  /** Cells with the same tag lists are clean at the same places. */
  lemma {:induction false} CleanBeforeSameTags(s: Settings, members: set<string>, a: seq<Cell>, b: seq<Cell>, n: nat)
    requires |a| == |b| && forall i :: 0 <= i < |a| ==> a[i].tags == b[i].tags
    ensures CleanBefore(s, members, a, n) <==> CleanBefore(s, members, b, n)
  {
    assert forall i :: 0 <= i < |a| ==> TagsOf(a[i]) == TagsOf(b[i]);
  }

  /** The first cell that is not clean is the same for cells with the same tag lists. */
  lemma {:induction false} FirstUncleanUnique(s: Settings, members: set<string>, a: seq<Cell>, b: seq<Cell>, x: nat, y: nat)
    requires |a| == |b| && forall i :: 0 <= i < |a| ==> a[i].tags == b[i].tags
    requires x < |a| && !Clean(s, members, TagsOf(a[x])) && CleanBefore(s, members, a, x)
    requires y < |b| && !Clean(s, members, TagsOf(b[y])) && CleanBefore(s, members, b, y)
    ensures x == y
  {
    assert TagsOf(a[x]) == TagsOf(b[x]);
    assert TagsOf(a[y]) == TagsOf(b[y]);
  }

  /** The first throwing tag of a list is unique. */
  lemma {:induction false} FirstThrowUnique(s: Settings, members: set<string>, tags: seq<string>, x: nat, y: nat)
    requires x < |tags| && Throws(s, members, tags[x]) && Clean(s, members, tags[..x])
    requires y < |tags| && Throws(s, members, tags[y]) && Clean(s, members, tags[..y])
    ensures x == y
  {
    assert forall i :: 0 <= i < y ==> tags[..y][i] == tags[i];
    assert forall i :: 0 <= i < x ==> tags[..x][i] == tags[i];
  }

  /** Two scans over cells with the same tag lists stop at the same place. */
  lemma {:induction false} AbortPositionUnique(s: Settings, members: set<string>, a: seq<Cell>, b: seq<Cell>)
    requires |a| == |b| && forall i :: 0 <= i < |a| ==> a[i].tags == b[i].tags
    ensures CheckTags(s, members, a).Done? <==> CheckTags(s, members, b).Done?
    ensures CheckTags(s, members, a).Aborted? ==>
      && CheckTags(s, members, a).cell == CheckTags(s, members, b).cell
      && CheckTags(s, members, a).tag == CheckTags(s, members, b).tag
  {
    var ra, rb := CheckTags(s, members, a), CheckTags(s, members, b);
    CleanBeforeSameTags(s, members, a, b, |a|);
    if ra.Aborted? {
      ThrowingNotClean(s, members, TagsOf(a[ra.cell]), ra.tag);
      ThrowingNotClean(s, members, TagsOf(b[rb.cell]), rb.tag);
      FirstUncleanUnique(s, members, a, b, ra.cell, rb.cell);
      assert TagsOf(a[ra.cell]) == TagsOf(b[rb.cell]);
      FirstThrowUnique(s, members, TagsOf(a[ra.cell]), ra.tag, rb.tag);
    }
  }

  /** Running the scan again changes nothing: after a success nothing is
      added, and after a throw the second run throws at the same tag and adds
      nothing either, so the cells after that tag are never classed. */
  lemma {:induction false} CheckTagsIdempotent(s: Settings, members: set<string>, cells: seq<Cell>)
    ensures CheckTags(s, members, CheckTags(s, members, cells).cells) == CheckTags(s, members, cells)
  {
    var once := CheckTags(s, members, cells);
    var twice := CheckTags(s, members, once.cells);
    AbortPositionUnique(s, members, cells, once.cells);
    forall i | 0 <= i < |cells|
      ensures twice.cells[i] == once.cells[i]
    {
      assert TagsOf(once.cells[i]) == TagsOf(cells[i]);
      if once.Done? || i < once.cell {
        assert once.cells[i] == Reconciled(s, cells[i]);
        assert twice.cells[i] == Reconciled(s, once.cells[i]);
      } else if i == once.cell {
        assert twice.cells[i].classes == once.cells[i].classes + Marks(s, TagsOf(cells[i])[..once.tag]);
        assert twice.cells[i].tags == once.cells[i].tags;
      }
    }
    assert twice.cells == once.cells;
  }

  /** With no array member names in play, the scan succeeds iff no cell has
      a prefixed tag whose remainder names no kind. */
  lemma {:induction false} CheckTagsFailsOnUnknownKind(s: Settings, cells: seq<Cell>)
    ensures CheckTags(s, {}, cells).Done?
        <==> forall i, j :: 0 <= i < |cells| && 0 <= j < |TagsOf(cells[i])| ==>
               !(StartsWith(TagsOf(cells[i])[j], s.prefix) && KindOf(Remainder(s.prefix, TagsOf(cells[i])[j])).None?)
  {
    var r := CheckTags(s, {}, cells);
    if !r.Done? {
      var i, j := r.cell, r.tag;
      assert StartsWith(TagsOf(cells[i])[j], s.prefix) && KindOf(Remainder(s.prefix, TagsOf(cells[i])[j])).None?;
    }
  }

  /** The tag name of a kind carries the prefix, and taking the prefix out gives the kind back. */
  lemma {:induction false} TagNameRemainder(prefix: string, k: Kind)
    ensures StartsWith(TagName(prefix, k), prefix)
    ensures KindOf(Remainder(prefix, TagName(prefix, k))) == Some(k)
  {
    var t := TagName(prefix, k);
    assert t[..|prefix|] == prefix;
    assert t[|prefix|..] == Name(k);
    KindOfName(k);
  }

  /** The scan of a single clean cell succeeds with that cell reconciled. */
  lemma {:induction false} CheckTagsOne(s: Settings, members: set<string>, c: Cell)
    requires Clean(s, members, TagsOf(c))
    ensures CheckTags(s, members, [c]) == Done([Reconciled(s, c)])
  {
    var r := CheckTags(s, members, [c]);
    assert [c][0] == c;
    assert r.Done? && |r.cells| == 1 && r.cells[0] == Reconciled(s, c);
  }

  /** The per-tag verdicts of the example below. */
  lemma {:induction false} ScenarioVerdicts(s: Settings, members: set<string>, other: string, tags: seq<string>)
    requires s.render == {Activity} && !StartsWith(other, s.prefix)
    requires tags == [TagName(s.prefix, Activity), TagName(s.prefix, Solution), other]
    ensures Clean(s, members, tags)
    ensures Renders(s, tags[0]) && !Renders(s, tags[1]) && !Renders(s, tags[2])
  {
    TagNameRemainder(s.prefix, Activity);
    TagNameRemainder(s.prefix, Solution);
  }

  /** The markers of the example below. */
  lemma {:induction false} ScenarioMarks(s: Settings, other: string, tags: seq<string>)
    requires s.render == {Activity} && !StartsWith(other, s.prefix)
    requires tags == [TagName(s.prefix, Activity), TagName(s.prefix, Solution), other]
    ensures Marks(s, tags) == {Marker(TagName(s.prefix, Activity))}
  {
    var m0 := Marker(TagName(s.prefix, Activity));
    MarksEveryRenderable(s, tags, Activity);
    forall m | m in Marks(s, tags)
      ensures m == m0
    {
      MarksOnlyRenderable(s, tags, m);
    }
  }

  /** With only the activity kind renderable, a cell tagged with the
      activity tag, the solution tag and a tag without the prefix (say
      `iou-activity`, `iou-solution` and `other-tag` under prefix `iou-`)
      gets the one marker of the activity tag, whatever array member names
      are in play. */
  lemma {:induction false} ScenarioRenderOne(s: Settings, members: set<string>, other: string, tags: seq<string>)
    requires s.render == {Activity} && !StartsWith(other, s.prefix)
    requires tags == [TagName(s.prefix, Activity), TagName(s.prefix, Solution), other]
    ensures CheckTags(s, members, [Cell(Some(tags), {})])
         == Done([Cell(Some(tags), {Marker(TagName(s.prefix, Activity))})])
  {
    assert Clean(s, members, tags) by {
      ScenarioVerdicts(s, members, other, tags);
    }
    assert Marks(s, tags) == {Marker(TagName(s.prefix, Activity))} by {
      ScenarioMarks(s, other, tags);
    }
    var cell := Cell(Some(tags), {});
    assert Reconciled(s, cell) == Cell(Some(tags), {Marker(TagName(s.prefix, Activity))}) by {
      assert TagsOf(cell) == tags;
    }
    CheckTagsOne(s, members, cell);
  }

  /** A tag built from the prefix carries it, and taking the prefix out gives the rest back. */
  lemma {:induction false} PrefixedRemainder(prefix: string, x: string)
    ensures StartsWith(prefix + x, prefix) && Remainder(prefix, prefix + x) == x
  {
    assert (prefix + x)[..|prefix|] == prefix;
    assert (prefix + x)[|prefix|..] == x;
  }

  /** A prefixed tag whose rest is an array member name but no kind, such as
      `iou-length`, neither throws nor classes the cell. */
  lemma {:induction false} ArrayMemberTagIgnored(s: Settings, members: set<string>, x: string)
    requires x in members && KindOf(x).None?
    ensures !Throws(s, members, s.prefix + x) && !Renders(s, s.prefix + x)
  {
    PrefixedRemainder(s.prefix, x);
  }

  /** The scan stops exactly at the first throwing tag of the first cell
      that is not clean. */
  lemma {:induction false} CheckTagsStopsAt(s: Settings, members: set<string>, cells: seq<Cell>, c: nat, t: nat)
    requires c < |cells| && CleanBefore(s, members, cells, c)
    requires t < |TagsOf(cells[c])| && Throws(s, members, TagsOf(cells[c])[t])
    requires Clean(s, members, TagsOf(cells[c])[..t])
    ensures var r := CheckTags(s, members, cells); r.Aborted? && r.cell == c && r.tag == t
  {
    var r := CheckTags(s, members, cells);
    ThrowingNotClean(s, members, TagsOf(cells[c]), t);
    assert r.Aborted?;
    ThrowingNotClean(s, members, TagsOf(cells[r.cell]), r.tag);
    FirstUncleanUnique(s, members, cells, cells, r.cell, c);
    FirstThrowUnique(s, members, TagsOf(cells[c]), r.tag, t);
  }

  /** A prefixed tag whose rest names neither a kind nor an array member,
      such as `iou-note`, throws. */
  lemma {:induction false} UnknownTagThrows(s: Settings, members: set<string>, x: string)
    requires KindOf(x).None? && x !in members
    ensures Throws(s, members, s.prefix + x)
  {
    PrefixedRemainder(s.prefix, x);
  }

  /** The tag of a kind never throws, whatever its render setting. */
  lemma {:induction false} KindTagNeverThrows(s: Settings, members: set<string>, k: Kind)
    ensures !Throws(s, members, TagName(s.prefix, k))
  {
    TagNameRemainder(s.prefix, k);
  }

  /** The tag of a renderable kind, alone, gives exactly its marker. */
  lemma {:induction false} MarksOfOneTag(s: Settings, k: Kind)
    requires k in s.render
    ensures Marks(s, [TagName(s.prefix, k)]) == {Marker(TagName(s.prefix, k))}
  {
    var tags := [TagName(s.prefix, k)];
    MarksEveryRenderable(s, tags, k);
    forall m | m in Marks(s, tags)
      ensures m == Marker(TagName(s.prefix, k))
    {
      MarksOnlyRenderable(s, tags, m);
    }
  }

  /** A prefixed tag naming no kind and no array member, such as `iou-note`,
      stops the scan at that tag: the marker its cell gained from the
      renderable tag ahead of it stays, and the next cell is never looked at. */
  lemma {:induction false} UnknownKindAborts(s: Settings, members: set<string>, x: string, cells: seq<Cell>)
    requires Activity in s.render && KindOf(x).None? && x !in members
    requires |cells| == 2 && TagsOf(cells[0]) == [TagName(s.prefix, Activity), s.prefix + x]
    ensures var r := CheckTags(s, members, cells);
      && r.Aborted? && r.cell == 0 && r.tag == 1
      && r.cells[0].classes == cells[0].classes + {Marker(TagName(s.prefix, Activity))}
      && r.cells[1] == cells[1]
  {
    var tags := TagsOf(cells[0]);
    UnknownTagThrows(s, members, x);
    KindTagNeverThrows(s, members, Activity);
    assert tags[..1] == [TagName(s.prefix, Activity)];
    assert Clean(s, members, tags[..1]);
    CheckTagsStopsAt(s, members, cells, 0, 1);
    assert tags[..1] == [TagName(s.prefix, Activity)];
    MarksOfOneTag(s, Activity);
  }
}
