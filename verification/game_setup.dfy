/** The setup screen (components/GameSetup.tsx): a target-score field, a
    player-name field with an Add Player button, the list of registered
    players, and a Start Game button. */
module GameSetup {
  import opened Wrappers
  import opened JsText

  const DefaultTarget: int := 10000

  /** The screen's state: the two text fields and the players added so far. */
  datatype Setup = Setup(targetText: string, name: string, players: seq<string>)

  /** The state the screen mounts with. */
  const InitialSetup := Setup("10000", "", [])

  /** What Start Game hands to the app. */
  datatype Start = Start(players: seq<string>, target: int)

  /** A name as the screen registers it: not empty, and neither starting nor
      ending with white space. */
  predicate Registered(name: string) {
    name != [] && !IsWhitespace(name[0]) && !IsWhitespace(name[|name| - 1])
  }

  /** Registered names are exactly the non-empty names that `trim` leaves as
      they are. */
  lemma RegisteredIffTrimmed(name: string)
    ensures Registered(name) <==> name != [] && Trim(name) == name
  {
    if name != [] && Trim(name) == name {
      assert Registered(Trim(name));
    }
  }

  predicate WellFormed(s: Setup) {
    forall i :: 0 <= i < |s.players| ==> Registered(s.players[i])
  }

  /** `addPlayer`: a name that is blank once trimmed changes nothing;
      otherwise its trimmed form joins the end of the list and the name field
      is cleared. */
  function AddPlayer(s: Setup): (r: Setup)
    ensures AllWhitespace(s.name) ==> r == s
    ensures !AllWhitespace(s.name) ==>
      && |r.players| == |s.players| + 1
      && r.players[..|s.players|] == s.players
      && r.players[|s.players|] == Trim(s.name)
      && r.name == ""
      && r.targetText == s.targetText
  {
    TrimBlankIff(s.name);
    if Trim(s.name) != "" then s.(players := s.players + [Trim(s.name)], name := "") else s
  }

  /** The target Start Game passes: `parseInt(text, 10) || 10000`, so text
      that does not parse, or parses to 0, falls back to the default. */
  function TargetFrom(text: string): (t: int)
    ensures t != 0
    ensures ParseInt(text).None? || ParseInt(text).value == 0 ==> t == DefaultTarget
    ensures ParseInt(text).Some? && ParseInt(text).value != 0 ==> t == ParseInt(text).value
  {
    match ParseInt(text)
    case Some(v) => if v != 0 then v else DefaultTarget
    case None => DefaultTarget
  }

  /** Start Game: offered only once a player has been added; it passes the
      registered players and the target read from the target field. */
  function StartGame(s: Setup): (r: Option<Start>)
    ensures r.Some? <==> |s.players| > 0
    ensures r.Some? ==> r.value.players == s.players && r.value.target == TargetFrom(s.targetText)
  {
    if |s.players| > 0 then Some(Start(s.players, TargetFrom(s.targetText))) else None
  }

  /** What the user can do on the screen: type into either field, or press
      Add Player. */
  datatype Action = TypeTarget(text: string) | TypeName(text: string) | PressAdd

  function Apply(s: Setup, a: Action): Setup {
    match a
    case TypeTarget(t) => s.(targetText := t)
    case TypeName(t) => s.(name := t)
    case PressAdd => AddPlayer(s)
  }

  function Run(s: Setup, actions: seq<Action>): Setup
    decreases |actions|
  {
    if |actions| == 0 then s else Run(Apply(s, actions[0]), actions[1..])
  }

  lemma AppendRegistered(players: seq<string>, n: string)
    requires forall i :: 0 <= i < |players| ==> Registered(players[i])
    requires Registered(n)
    ensures forall i :: 0 <= i < |players + [n]| ==> Registered((players + [n])[i])
  {
  }

  lemma AddPlayerKeepsWellFormed(s: Setup)
    requires WellFormed(s)
    ensures WellFormed(AddPlayer(s))
  {
    if !AllWhitespace(s.name) {
      var n := Trim(s.name);
      TrimBlankIff(s.name);
      assert AddPlayer(s).players == s.players + [n];
      AppendRegistered(s.players, n);
    }
  }

  /** Every registered player has a non-blank, trimmed name, whatever the
      user typed. */
  lemma {:induction false} RunKeepsNamesRegistered(s: Setup, actions: seq<Action>)
    requires WellFormed(s)
    ensures WellFormed(Run(s, actions))
    decreases |actions|
  {
    if |actions| > 0 {
      if actions[0].PressAdd? {
        AddPlayerKeepsWellFormed(s);
      }
      RunKeepsNamesRegistered(Apply(s, actions[0]), actions[1..]);
    }
  }

  /** Left untouched, the target field yields the default target. */
  lemma InitialTargetIsDefault()
    ensures TargetFrom(InitialSetup.targetText) == DefaultTarget
  {
    var text := InitialSetup.targetText;
    assert DigitsValue(text) == 10000 by {
      assert DigitsValue("1") == 1 by { assert "1"[..0] == ""; }
      assert DigitsValue("10") == 10 by { assert "10"[..1] == "1"; }
      assert DigitsValue("100") == 100 by { assert "100"[..2] == "10"; }
      assert DigitsValue("1000") == 1000 by { assert "1000"[..3] == "100"; }
      assert text[..4] == "1000";
    }
    ParseIntOfDigits(text, "");
    assert text + "" == text;
  }
}
