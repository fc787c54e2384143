/** The launcher's decision rules around its settings: the dev-mode gate of its
    diagnostic output, the username file, the greeting for the hour, the button grid
    and the settings dialog, whose callbacks update the shared settings mapping. */
module Launchpad {
  import opened Wrappers
  import opened Text
  import opened Dicts
  import SettingsFile

  /** `settings.get("devmode", "off") == "on"`. */
  predicate DevMode(settings: Dict)
    ensures DevMode(settings) <==> Get(settings, "devmode") == Some("on")
  {
    GetOr(settings, "devmode", "off") == "on"
  }

  /** `dev_print(settings, message)`: the lines it prints. */
  function DevPrint(settings: Dict, message: string): (out: seq<string>)
    ensures out == [message] <==> Get(settings, "devmode") == Some("on")
    ensures out == [] <==> Get(settings, "devmode") != Some("on")
  {
    if DevMode(settings) then [message] else []
  }

  /** `load_username()`: `content` is the text of the username file, or None when the
      file cannot be opened or read. */
  function LoadUsername(content: Option<string>): (name: string)
    ensures name != [] && IsStripped(name)
    ensures content.Some? && !AllWhitespace(content.value) ==> name == Strip(content.value)
    ensures content.None? || AllWhitespace(content.value) ==> name == "User"
  {
    match content
    case None => "User"
    case Some(text) => if Strip(text) != [] then Strip(text) else "User"
  }

  /** A name that `save_username` wrote is read back unchanged, provided it is
      non-empty, has no surrounding whitespace and holds no carriage return (which
      reading in text mode would turn into a line feed). */
  lemma UsernameRoundTrip(name: string)
    requires name != [] && IsStripped(name) && '\r' !in name
    ensures LoadUsername(Some(name)) == name
  {
    StripStripped(name);
  }

  /** The salutation `update_greeting`, and the same code at start-up, pick for an hour. */
  function Greeting(hour: int): (g: string)
    ensures g == "Good morning " <==> 5 <= hour < 12
    ensures g == "Good afternoon " <==> 12 <= hour < 18
    ensures g == "Good evening " <==> hour < 5 || 18 <= hour
  {
    if 5 <= hour < 12 then "Good morning "
    else if 12 <= hour < 18 then "Good afternoon "
    else "Good evening "
  }

  /** `divmod(idx, 3)`: the (row, column) of the grid button at position `idx`. */
  function GridCell(idx: nat): (cell: (nat, nat))
    ensures cell.1 < 3
    ensures cell.0 * 3 + cell.1 == idx
  {
    (idx / 3, idx % 3)
  }

  /** The placement loop: the cell each of `count` buttons is put in. Every cell lies
      in one of the three columns, no two buttons share one, and rows are filled in order. */
  method PlaceButtons(count: nat) returns (cells: seq<(nat, nat)>)
    ensures |cells| == count
    ensures forall i :: 0 <= i < count ==> cells[i].1 < 3 && cells[i].0 * 3 + cells[i].1 == i
    ensures forall i, j :: 0 <= i < j < count ==> cells[i] != cells[j]
  {
    cells := [];
    for idx := 0 to count
      invariant |cells| == idx
      invariant forall i :: 0 <= i < idx ==> cells[i].1 < 3 && cells[i].0 * 3 + cells[i].1 == i
    {
      cells := cells + [GridCell(idx)];
    }
  }

  /** The mapping after `save_and_update`, given the text in the name entry and the
      state of the dev-mode box: the trimmed name replaces `username` only when it is
      non-empty, `devmode` follows the box, and nothing else changes. */
  function SavedSettings(settings: Dict, entryText: string, devChecked: bool): (r: Dict)
    ensures Get(r, "username") == if Strip(entryText) != [] then Some(Strip(entryText)) else Get(settings, "username")
    ensures Get(r, "devmode") == Some(if devChecked then "on" else "off")
    ensures forall k :: k != "username" && k != "devmode" ==> Get(r, k) == Get(settings, k)
    ensures SettingsFile.WellFormed(settings) ==> SettingsFile.WellFormed(r) && Keys(r) == Keys(settings)
  {
    var newName := Strip(entryText);
    var named := if newName != [] then Set(settings, "username", newName) else settings;
    Set(named, "devmode", if devChecked then "on" else "off")
  }

  /** Pressing Save twice with the same dialog contents changes nothing the second time. */
  lemma SavedSettingsIdempotent(settings: Dict, entryText: string, devChecked: bool)
    ensures SavedSettings(SavedSettings(settings, entryText, devChecked), entryText, devChecked)
            == SavedSettings(settings, entryText, devChecked)
  {
    var r := SavedSettings(settings, entryText, devChecked);
    var newName := Strip(entryText);
    if newName != [] {
      SetUnchanged(r, "username", newName);
    }
    SetUnchanged(r, "devmode", if devChecked then "on" else "off");
  }

  /** The dialog opens with the entry holding `settings["username"]` and the box ticked
      when dev mode is on. Saving it untouched leaves a loaded mapping as it was,
      provided the stored name has no surrounding whitespace and `devmode` is "on" or "off". */
  lemma SaveUntouchedDialog(settings: Dict)
    requires SettingsFile.WellFormed(settings)
    requires IsStripped(At(settings, "username"))
    requires At(settings, "devmode") == "on" || At(settings, "devmode") == "off"
    ensures SavedSettings(settings, At(settings, "username"), DevMode(settings)) == settings
  {
    var name := At(settings, "username");
    StripStripped(name);
    if name != [] {
      SetUnchanged(settings, "username", name);
    }
    SetUnchanged(settings, "devmode", At(settings, "devmode"));
  }

  /** The mapping after `pick_color`, given what the colour chooser returned (None when
      it was cancelled): `bgcolor` is set only when a colour was chosen. */
  function ColorPicked(settings: Dict, chosen: Option<string>): (r: Dict)
    ensures chosen.Some? && chosen.value != [] ==> Get(r, "bgcolor") == chosen
    ensures chosen.None? || chosen.value == [] ==> r == settings
    ensures forall k :: k != "bgcolor" ==> Get(r, k) == Get(settings, k)
    ensures SettingsFile.WellFormed(settings) ==> SettingsFile.WellFormed(r) && Keys(r) == Keys(settings)
  {
    match chosen
    case Some(color) => if color != [] then Set(settings, "bgcolor", color) else settings
    case None => settings
  }

  /** Assigning a key other than `devmode` does not switch dev mode. */
  lemma UnrelatedKeepsDevMode(settings: Dict, k: string, v: string)
    requires k != "devmode"
    ensures DevMode(Set(settings, k, v)) == DevMode(settings)
  {
    assert Get(Set(settings, k, v), "devmode") == Get(settings, "devmode");
  }

  /** The line `save_and_update` prints about dev mode once the box's state is stored. */
  lemma DevModeReport(settings: Dict, devChecked: bool)
    requires Get(settings, "devmode") == Some(if devChecked then "on" else "off")
    ensures "devmode" in Keys(settings)
    ensures DevPrint(settings, "Dev Mode set to " + At(settings, "devmode"))
            == if devChecked then ["Dev Mode set to on"] else []
  {
    assert GetOr(settings, "devmode", "off") == At(settings, "devmode");
    if devChecked {
      assert "Dev Mode set to " + "on" == "Dev Mode set to on";
    } else {
      assert "off" != "on";
    }
  }

  /** The settings mapping that the window's callbacks share and update in place. */
  class Settings {
    var entries: Dict

    ghost predicate Valid()
      reads this
    {
      SettingsFile.WellFormed(entries)
    }

    /** `settings = load_settings()` at start-up, over the lines read from the file. */
    constructor (lines: seq<string>)
      ensures Valid() && entries == SettingsFile.Load(lines)
    {
      var loaded := SettingsFile.LoadSettings(lines);
      entries := loaded;
    }

    /** The dialog's Save button. It stores the entry's trimmed name (when non-empty)
        and the dev-mode box, writes the settings file and refreshes the greeting.
        Returns the text written, the greeting and name label texts for `hour`, and
        the dev-mode lines printed: the name change is reported under the dev mode in
        force before the save, and the dev-mode line only when dev mode is now on. */
    method SaveAndUpdate(entryText: string, devChecked: bool, hour: int)
      returns (written: string, greeting: string, nameLabel: string, printed: seq<string>)
      requires Valid()
      modifies this
      ensures Valid()
      ensures entries == SavedSettings(old(entries), entryText, devChecked)
      ensures written == SettingsFile.Serialise(entries)
      ensures greeting == Greeting(hour)
      ensures nameLabel == At(entries, "username") + "!"
      ensures printed ==
        (if Strip(entryText) != [] && DevMode(old(entries)) then ["Username changed to " + Strip(entryText)] else [])
        + (if devChecked then ["Dev Mode set to on"] else [])
    {
      var newName := Strip(entryText);
      var d := entries;
      printed := [];
      if newName != [] {
        d := Set(d, "username", newName);
        UnrelatedKeepsDevMode(entries, "username", newName);
        printed := DevPrint(d, "Username changed to " + newName);
      }
      ghost var nameLine := printed;
      assert nameLine == if newName != [] && DevMode(old(entries)) then ["Username changed to " + newName] else [];
      d := Set(d, "devmode", if devChecked then "on" else "off");
      entries := d;
      written := SettingsFile.SaveSettings(d);
      greeting, nameLabel := Greeting(hour), At(d, "username") + "!";
      DevModeReport(d, devChecked);
      var modeLine := DevPrint(d, "Dev Mode set to " + At(d, "devmode"));
      printed := printed + modeLine;
      assert printed == nameLine + modeLine;
    }

    /** The dialog's colour button. It stores the chosen colour, if any, and returns the
        background to repaint with and the dev-mode line printed. */
    method PickColor(chosen: Option<string>) returns (background: Option<string>, printed: seq<string>)
      requires Valid()
      modifies this
      ensures Valid()
      ensures entries == ColorPicked(old(entries), chosen)
      ensures background == if chosen.Some? && chosen.value != [] then chosen else None
      ensures printed ==
        if chosen.Some? && chosen.value != [] && DevMode(old(entries))
        then ["Background color changed to " + chosen.value] else []
    {
      background, printed := None, [];
      if chosen.Some? && chosen.value != [] {
        entries := Set(entries, "bgcolor", chosen.value);
        background := Some(At(entries, "bgcolor"));
        printed := DevPrint(entries, "Background color changed to " + chosen.value);
      }
    }
  }
}
