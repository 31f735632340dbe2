/** The four tag kinds, their fixed button definitions, the settings that
    switch them on, and the names derived from a kind. */
module Config {
  import opened Optional

  /** The kinds the extension knows: `tag_types`, and the keys of `tagButtonSpec`. */
  datatype Kind = Activity | Solution | Learner | Tutor

  /** The identifier of a kind, as it appears in tag names and setting keys. */
  function Name(k: Kind): string {
    match k
    case Activity => "activity"
    case Solution => "solution"
    case Learner => "learner"
    case Tutor => "tutor"
  }

  /** The toolbar button label of a kind. */
  function Label(k: Kind): string {
    match k
    case Activity => "A"
    case Solution => "S"
    case Learner => "L"
    case Tutor => "T"
  }

  /** The toolbar position of a kind's button. */
  function Location(k: Kind): int {
    match k
    case Activity => 10
    case Solution => 11
    case Learner => 12
    case Tutor => 13
  }

  /** The order in which both `tag_types` and a for-in over `tagButtonSpec`
      visit the kinds. */
  const Kinds: seq<Kind> := [Activity, Solution, Learner, Tutor]

  lemma KindsListsEveryKindOnce(k: Kind)
    ensures k in Kinds
    ensures multiset(Kinds)[k] == 1
  {
  }

  /** Recognition of a kind identifier: `tag_types.includes(s)`, and which
      kind `s` names. */
  function KindOf(s: string): (r: Option<Kind>)
    ensures r.Some? ==> Name(r.value) == s
  {
    if s == "activity" then Some(Activity)
    else if s == "solution" then Some(Solution)
    else if s == "learner" then Some(Learner)
    else if s == "tutor" then Some(Tutor)
    else None
  }

  /** Every identifier of a kind is recognised, as that kind. */
  lemma KindOfName(k: Kind)
    ensures KindOf(Name(k)) == Some(k)
  {
  }

  /** The configuration the two extensions read from the settings store:
      `tagprefix`, and the kinds whose `<kind>_button` and `<kind>_render`
      settings are set. */
  datatype Settings = Settings(prefix: string, enabled: set<Kind>, render: set<Kind>)

  /** The metadata tag of a kind: `tag_prefix + typ`. */
  function TagName(prefix: string, k: Kind): string {
    prefix + Name(k)
  }

  /** The CSS class put on a cell's node for a tag: `tag + "-node"`. */
  function Marker(tag: string): string {
    tag + "-node"
  }

  /** The CSS variable holding a kind's background colour. */
  function ColorVariable(prefix: string, k: Kind): string {
    "--" + prefix + Name(k) + "-bg-color"
  }

  lemma {:induction false} TagNameInjective(prefix: string, j: Kind, k: Kind)
    ensures TagName(prefix, j) == TagName(prefix, k) <==> j == k
  {
    if TagName(prefix, j) == TagName(prefix, k) {
      assert TagName(prefix, j)[|prefix|..] == Name(j);
      assert TagName(prefix, k)[|prefix|..] == Name(k);
      KindOfName(j);
      KindOfName(k);
    }
  }

  lemma {:induction false} MarkerInjective(s: string, t: string)
    ensures Marker(s) == Marker(t) <==> s == t
  {
    if Marker(s) == Marker(t) {
      assert |s| == |t|;
      assert Marker(s)[..|s|] == s;
      assert Marker(t)[..|t|] == t;
    }
  }

  /** Each kind gets a CSS variable of its own, so one colour setting never
      overwrites another. */
  lemma {:induction false} ColorVariableInjective(prefix: string, j: Kind, k: Kind)
    ensures ColorVariable(prefix, j) == ColorVariable(prefix, k) <==> j == k
  {
    if ColorVariable(prefix, j) == ColorVariable(prefix, k) {
      var a, b := ColorVariable(prefix, j), ColorVariable(prefix, k);
      assert a == ("--" + prefix) + Name(j) + "-bg-color";
      assert b == ("--" + prefix) + Name(k) + "-bg-color";
      assert |Name(j)| == |Name(k)|;
      assert a[|"--" + prefix|..|"--" + prefix| + |Name(j)|] == Name(j);
      assert b[|"--" + prefix|..|"--" + prefix| + |Name(k)|] == Name(k);
      KindOfName(j);
      KindOfName(k);
    }
  }
}
