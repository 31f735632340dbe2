/** The toolbar side of the button extension: one button per enabled kind,
    disposal of exactly those buttons, and what a click on a button does. */
module Buttons {
  import opened Optional
  import opened Config
  import opened Notebook
  import opened TagToggle

  /** A toolbar button as it is created: the kind it belongs to, its CSS
      class, label text, toolbar position, toolbar item name and tooltip. */
  datatype Button = Button(kind: Kind, className: string, caption: string, location: int,
                           id: string, tooltip: string)

  /** The button of a kind, with the fixed label and position of that kind. */
  function MakeButton(prefix: string, k: Kind): Button {
    Button(k, "tagger-" + Name(k) + "-button", Label(k), Location(k),
           "toggle_" + Name(k) + "TagButtonAction",
           "Toggle " + prefix + Name(k) + " metadata tag on a cell")
  }

  /** The kinds of a row of buttons, in order. */
  function KindsOf(bs: seq<Button>): (r: seq<Kind>)
    ensures |r| == |bs|
    ensures forall i :: 0 <= i < |bs| ==> r[i] == bs[i].kind
  {
    if |bs| == 0 then [] else [bs[0].kind] + KindsOf(bs[1..])
  }

  /** The creation loop: visit `keys` in order, skip a kind whose button is
      not enabled, and create the button of every other one. */
  function InstallFrom(prefix: string, enabled: set<Kind>, keys: seq<Kind>): (r: seq<Button>)
    ensures |r| <= |keys|
    ensures forall i :: 0 <= i < |r| ==> r[i].kind in enabled && r[i].kind in keys
    ensures forall i :: 0 <= i < |r| ==> r[i] == MakeButton(prefix, r[i].kind)
  {
    if |keys| == 0 then []
    else if keys[0] in enabled then [MakeButton(prefix, keys[0])] + InstallFrom(prefix, enabled, keys[1..])
    else InstallFrom(prefix, enabled, keys[1..])
  }

  lemma {:induction false} KindsOfCons(b: Button, rest: seq<Button>)
    ensures KindsOf([b] + rest) == [b.kind] + KindsOf(rest)
  {
    assert ([b] + rest)[1..] == rest;
  }

  /** Every visit of an enabled kind creates one button, and nothing else
      does: a kind gets as many buttons as it has visits, if enabled. */
  lemma {:induction false} InstallFromCounts(prefix: string, enabled: set<Kind>, keys: seq<Kind>, k: Kind)
    ensures multiset(KindsOf(InstallFrom(prefix, enabled, keys)))[k]
         == if k in enabled then multiset(keys)[k] else 0
  {
    if |keys| > 0 {
      var tail := keys[1..];
      InstallFromCounts(prefix, enabled, tail, k);
      assert multiset(keys) == multiset{keys[0]} + multiset(tail) by {
        assert keys == [keys[0]] + tail;
      }
      var rest := InstallFrom(prefix, enabled, tail);
      if keys[0] in enabled {
        var b := MakeButton(prefix, keys[0]);
        assert InstallFrom(prefix, enabled, keys) == [b] + rest;
        KindsOfCons(b, rest);
        assert multiset(KindsOf([b] + rest)) == multiset{keys[0]} + multiset(KindsOf(rest));
      } else {
        assert InstallFrom(prefix, enabled, keys) == rest;
      }
    }
  }

  /** The buttons of a notebook panel: the creation loop over the four kinds. */
  function Install(s: Settings): seq<Button> {
    InstallFrom(s.prefix, s.enabled, Kinds)
  }

  /** The disposal loop: visit `keys` in order and dispose the button of
      every kind whose button is enabled. */
  function Disposed(enabled: set<Kind>, keys: seq<Kind>): (r: seq<Kind>)
    ensures forall i :: 0 <= i < |r| ==> r[i] in enabled && r[i] in keys
    ensures |r| <= |keys|
  {
    if |keys| == 0 then []
    else if keys[0] in enabled then [keys[0]] + Disposed(enabled, keys[1..])
    else Disposed(enabled, keys[1..])
  }

  /** Disposal visits exactly the buttons creation made, in the same order:
      none is left behind and none is disposed that was never created. */
  lemma {:induction false} DisposeMatchesInstall(prefix: string, enabled: set<Kind>, keys: seq<Kind>)
    ensures Disposed(enabled, keys) == KindsOf(InstallFrom(prefix, enabled, keys))
  {
    if |keys| > 0 {
      DisposeMatchesInstall(prefix, enabled, keys[1..]);
      var rest := InstallFrom(prefix, enabled, keys[1..]);
      if keys[0] in enabled {
        KindsOfCons(MakeButton(prefix, keys[0]), rest);
      }
    }
  }

  /** Buttons stand in strictly increasing toolbar position. */
  predicate InToolbarOrder(bs: seq<Button>) {
    forall i, j :: 0 <= i < j < |bs| ==> bs[i].location < bs[j].location
  }

  /** Kinds are listed in strictly increasing toolbar position. */
  predicate KeysInToolbarOrder(keys: seq<Kind>) {
    forall i, j :: 0 <= i < j < |keys| ==> Location(keys[i]) < Location(keys[j])
  }

  lemma {:induction false} ConsInToolbarOrder(b: Button, rest: seq<Button>)
    requires InToolbarOrder(rest)
    requires forall j :: 0 <= j < |rest| ==> b.location < rest[j].location
    ensures InToolbarOrder([b] + rest)
  {
    var r := [b] + rest;
    forall i, j | 0 <= i < j < |r|
      ensures r[i].location < r[j].location
    {
      assert r[j] == rest[j - 1];
      if i > 0 {
        assert r[i] == rest[i - 1];
      }
    }
  }

  /** Keys visited in increasing toolbar position give buttons in increasing
      toolbar position. */
  lemma {:induction false} InstallFromOrdered(prefix: string, enabled: set<Kind>, keys: seq<Kind>)
    requires KeysInToolbarOrder(keys)
    ensures InToolbarOrder(InstallFrom(prefix, enabled, keys))
  {
    if |keys| > 0 {
      var tail := keys[1..];
      assert KeysInToolbarOrder(tail) by {
        forall i, j | 0 <= i < j < |tail|
          ensures Location(tail[i]) < Location(tail[j])
        {
          assert tail[i] == keys[i + 1] && tail[j] == keys[j + 1];
        }
      }
      InstallFromOrdered(prefix, enabled, tail);
      var rest := InstallFrom(prefix, enabled, tail);
      if keys[0] in enabled {
        forall j | 0 <= j < |rest|
          ensures Location(keys[0]) < rest[j].location
        {
          var m :| 0 <= m < |tail| && tail[m] == rest[j].kind;
          assert keys[m + 1] == rest[j].kind;
        }
        ConsInToolbarOrder(MakeButton(prefix, keys[0]), rest);
      }
    }
  }

  /** The kinds are visited in increasing toolbar position. */
  lemma KindsInToolbarOrder()
    ensures KeysInToolbarOrder(Kinds)
  {
  }

  /** A panel gets exactly one button per enabled kind, in toolbar order,
      each carrying its own kind's toolbar item name. */
  lemma {:induction false} InstallOnePerEnabledKind(s: Settings, k: Kind)
    ensures var bs := Install(s);
      && multiset(KindsOf(bs))[k] == (if k in s.enabled then 1 else 0)
      && InToolbarOrder(bs)
      && (forall i :: 0 <= i < |bs| ==> bs[i].id == "toggle_" + Name(bs[i].kind) + "TagButtonAction")
  {
    KindsListsEveryKindOnce(k);
    InstallFromCounts(s.prefix, s.enabled, Kinds, k);
    KindsInToolbarOrder();
    InstallFromOrdered(s.prefix, s.enabled, Kinds);
  }

  /** A click on `b`, as intended: toggle the tag of the button's own kind
      in the active cell. */
  function Click(prefix: string, b: Button, cell: Cell): (r: Cell)
    ensures r.tags.Some?
    ensures var t := TagName(prefix, b.kind);
      && (t in TagsOf(cell) <==> Arrays.Count(r.tags.value, t) < Arrays.Count(TagsOf(cell), t))
      && (t !in TagsOf(cell) ==> Arrays.Count(r.tags.value, t) == 1)
  {
    Toggle(prefix, b.kind, cell)
  }

  /** The value a variable holds after a for-in loop that assigns it each
      of `keys` in turn, starting from `v`: the loop leaves no fresh binding
      behind, only the last key assigned. */
  function LoopVarAfter(v: Option<Kind>, keys: seq<Kind>): (r: Option<Kind>)
    decreases |keys|
    ensures |keys| == 0 ==> r == v
    ensures |keys| > 0 ==> r == Some(keys[|keys| - 1])
  {
    if |keys| == 0 then v else LoopVarAfter(Some(keys[0]), keys[1..])
  }

  /** The kind a click handler reads, as written: the one `typ` of the
      creation function starts unset, the settings loop and the creation loop
      both assign it every key in turn, and a handler reads it only when the
      button is clicked, after both loops are over. */
  function CapturedKind(keys: seq<Kind>): (k: Option<Kind>)
    ensures |keys| == 0 ==> k == None
    ensures |keys| > 0 ==> k == Some(keys[|keys| - 1])
  {
    var afterSettings := LoopVarAfter(None, keys);
    LoopVarAfter(afterSettings, keys)
  }

  /** A click on `b` as written: whatever the button, the kind toggled is the
      one the shared loop variable holds after the loops. */
  function ClickAsWritten(prefix: string, b: Button, cell: Cell): (r: Cell)
    ensures r == Toggle(prefix, Tutor, cell)
  {
    Toggle(prefix, CapturedKind(Kinds).value, cell)
  }

  /** A created button is the button of its kind. */
  lemma InstalledIsMade(s: Settings, b: Button)
    requires b in Install(s)
    ensures b == MakeButton(s.prefix, b.kind)
    ensures b.tooltip == "Toggle " + TagName(s.prefix, b.kind) + " metadata tag on a cell"
  {
    var bs := Install(s);
    var i :| 0 <= i < |bs| && bs[i] == b;
    var p, n := s.prefix, Name(b.kind);
    assert "Toggle " + p + n + " metadata tag on a cell" == "Toggle " + (p + n) + " metadata tag on a cell";
  }

  /** The button of a kind toggles the tag its tooltip names, and no other
      kind's tag or marker. */
  lemma {:induction false} ClickTogglesOwnKind(s: Settings, b: Button, other: Kind, cell: Cell)
    requires b in Install(s) && other != b.kind
    ensures b.tooltip == "Toggle " + TagName(s.prefix, b.kind) + " metadata tag on a cell"
    ensures var r, t := Click(s.prefix, b, cell), TagName(s.prefix, other);
      && Arrays.Count(r.tags.value, t) == Arrays.Count(TagsOf(cell), t)
      && (Marker(t) in r.classes <==> Marker(t) in cell.classes)
  {
    InstalledIsMade(s, b);
    ToggleLeavesOtherKinds(s.prefix, b.kind, other, cell);
  }

  /** As written, the activity button on an untagged cell adds the tutor
      tag, not the activity tag, and it does so even when the tutor button
      is not enabled. */
  lemma ActivityClickTogglesTutor(prefix: string, classes: set<string>)
    ensures var b, cell := MakeButton(prefix, Activity), Cell(None, classes);
      && b in Install(Settings(prefix, {Activity}, {}))
      && ClickAsWritten(prefix, b, cell).tags == Some([TagName(prefix, Tutor)])
      && Click(prefix, b, cell).tags == Some([TagName(prefix, Activity)])
  {
    var b := MakeButton(prefix, Activity);
    var s := Settings(prefix, {Activity}, {});
    InstallOnePerEnabledKind(s, Activity);
    var i :| 0 <= i < |KindsOf(Install(s))| && KindsOf(Install(s))[i] == Activity;
    assert Install(s)[i] == b;
    ToggleMissingTags(prefix, Tutor, classes);
    ToggleMissingTags(prefix, Activity, classes);
  }

  /** As written, every button but the tutor one behaves wrongly: its click
      leaves its own kind's tag as it was. */
  lemma {:induction false} ClickAsWrittenMissesOwnKind(prefix: string, b: Button, cell: Cell)
    requires b.kind != Tutor
    ensures var t := TagName(prefix, b.kind);
      && Arrays.Count(ClickAsWritten(prefix, b, cell).tags.value, t) == Arrays.Count(TagsOf(cell), t)
      && Arrays.Count(Click(prefix, b, cell).tags.value, t) != Arrays.Count(TagsOf(cell), t)
  {
    ToggleLeavesOtherKinds(prefix, Tutor, b.kind, cell);
  }
}
