# Startup Launchpad settings, in Dafny

Startup Launchpad is a small desktop launcher. Its window greets the user by name for the
time of day and shows a grid of buttons that start applications and websites. Its colours,
the user's name and a developer ("dev") mode live in a settings mapping. That mapping is read
from `settings.txt` at start-up, changed by the settings dialog and written back when the
dialog is saved.

This project models the parts of `startup_launchpad.py` that make decisions:

- **`load_settings`.** Three defaults, then `key=value` lines folded over them. Every line
  holding `=` is stripped and split at its first `=`.
- **`save_settings`.** One `key=value` line per entry, in the mapping's order.
- **The settings dialog.** `save_and_update` and `pick_color` update the shared mapping in place.
- **The pure rules:**
  - the dev-mode gate `dev_print`;
  - the trimmed username of `load_username`;
  - the greeting chosen for the hour;
  - the `divmod(idx, 3)` button grid.

Modules:

- **`Wrappers`**: `Option`.
- **`Text`**:
  - `str.strip()` over a fixed whitespace set;
  - `str.split("=", 1)`;
  - the lines that iterating over a file yields.
- **`Dicts`**:
  - a Python `dict` as an insertion-ordered list of entries with distinct keys;
  - `get`, `d[k]` and `d[k] = v`;
  - its plain `map` view.
- **`SettingsFile`**:
  - loading, as a function over the lines read and as the imperative loop;
  - saving, as the imperative loop and the function it computes;
  - the round trip between the two.
- **`Launchpad`**:
  - the dialog's updates, as functions;
  - a `Settings` class holding the shared mapping, whose methods perform the callbacks in place;
  - `dev_print`, `load_username`, the greeting and the grid.

File contents enter the model as values:

- What `load_settings` reads is the sequence of lines its loop received. That sequence is
  empty when the file could not be opened. It stops early when a read error ended the loop.
- What `save_settings` writes is returned as a string.
- `load_username` receives the file's text, or `None` when reading failed.
- The hour is a parameter.
- The lines `dev_print` would print are returned.

Two points the program's own wording leaves open:

- The docstring of `load_settings` (startup_launchpad.py:74) says it returns the defaults
  when the file is missing. A read error part-way through the file still keeps the
  entries parsed before it, which `LoadAppend` states.
- `save_settings` writes in the mapping's insertion order, which `SaveLoadRoundTrip`
  brings back.

## Model

| member | source | states |
|---|---|---|
| Text.Strip | startup_launchpad.py:80 | `strip()` returns the middle slice of the line with only whitespace removed around it: it has no whitespace at either end, and it is empty exactly when the line is all whitespace |
| Text.StripKeeps | startup_launchpad.py:79-80 | a non-whitespace character of the line (such as the `=` just tested for) is still there after `strip()` |
| Text.SplitAtFirst | startup_launchpad.py:80 | `split("=", 1)` on a text holding `=`: the text is key + "=" + value, and the key holds no `=` |
| Text.SplitAtFirstUnique | startup_launchpad.py:80 | for a key without `=`, splitting key + "=" + value gives back exactly that key and value |
| Text.SplitLines | startup_launchpad.py:78 | the lines of a file: none is empty, none holds a line feed before its end, and all but the last end in one |
| Text.SplitLinesConcat | startup_launchpad.py:78 | cutting a text into lines loses and adds nothing |
| Dicts.Get | startup_launchpad.py:96 | `settings.get(k)` is absent exactly when `k` is not a key, and otherwise is the value of an entry for `k` |
| Dicts.GetOr | startup_launchpad.py:96 | `settings.get(k, default)` is the stored value for a present key and `default` for an absent one |
| Dicts.At | startup_launchpad.py:114 | `settings[k]` on a present key is the value `get` finds |
| Dicts.Set | startup_launchpad.py:81 | `d[k] = v`: `k` now maps to `v` and every other key keeps its value; a present key keeps its place, a new one is appended; keys stay distinct |
| Dicts.SetUnchanged | startup_launchpad.py:81 | storing the value a key already has leaves the dict as it was |
| Dicts.GetToMap | startup_launchpad.py:96 | with distinct keys, `get` on the ordered dict agrees with lookup in its plain mapping |
| Dicts.ToMapSet | startup_launchpad.py:81 | on the plain mapping, `d[k] = v` is a map update |
| SettingsFile.DefaultsWellFormed | startup_launchpad.py:75 | the defaults are username "User", bgcolor "skyblue" and devmode "off", in that order, with distinct keys |
| SettingsFile.WellFormed | startup_launchpad.py:75 | a loaded mapping holds `username`, `bgcolor` and `devmode` |
| SettingsFile.Step | startup_launchpad.py:79-81 | one pass of the loop body: a line without `=` leaves the mapping as it was; a line with `=` sets its parsed key to its parsed value and leaves every other key alone |
| SettingsFile.ParseLine | startup_launchpad.py:78-81 | a line gives an entry exactly when it holds `=`; the stripped line is then key + "=" + value with no `=` in the key, so the two-way unpacking never fails |
| SettingsFile.ApplyLines | startup_launchpad.py:78-81 | folding lines over a mapping that holds the three required keys, with distinct keys, keeps both properties |
| SettingsFile.Load | startup_launchpad.py:73-84 | the loaded mapping always holds `username`, `bgcolor` and `devmode`, with distinct keys |
| SettingsFile.LoadSettings | startup_launchpad.py:73-84 | the loop, updating the mapping line by line, computes `Load` and returns all three required keys |
| SettingsFile.LoadWithoutAssignments | startup_launchpad.py:75-84 | when no line holds `=` (an empty or unopenable file among them), the result is exactly the three defaults |
| SettingsFile.LoadAppend | startup_launchpad.py:76-84 | the entries parsed before a read error stop the loop are kept; the rest of the file would only have continued from them |
| SettingsFile.SkippedLine | startup_launchpad.py:79 | a line without `=` is skipped and does not affect the lines after it |
| SettingsFile.LoadLastAssignment | startup_launchpad.py:78-81 | the last line that sets a key decides its value, over the default and every earlier line with that key |
| SettingsFile.LoadUnassignedKey | startup_launchpad.py:75-81 | a key no line sets keeps its default, or stays absent |
| SettingsFile.Line | startup_launchpad.py:91 | the line written for an entry is two characters longer than key and value together, has `=` right after the key and ends in a line feed |
| SettingsFile.LineParts | startup_launchpad.py:91 | the line written for an entry begins with the key and holds the value between the `=` and the closing line feed |
| SettingsFile.Serialise | startup_launchpad.py:86-91 | the text written is empty exactly for an empty mapping, and otherwise ends in a line feed |
| SettingsFile.SerialiseLines | startup_launchpad.py:90-91 | the text written is the entries' lines one after another, in the mapping's order |
| SettingsFile.SaveSettings | startup_launchpad.py:86-91 | the loop writes `k=v\n` for each entry, in the mapping's order |
| SettingsFile.SplitSerialised | startup_launchpad.py:89-91 | when no key or value holds a line feed, reading the written text back yields exactly one line per entry, in order |
| SettingsFile.ParseLineOfLine | startup_launchpad.py:78-91 | a written line parses back to its entry when the key has no `=`, neither part has a line break, the key has no leading whitespace and the value no trailing whitespace |
| SettingsFile.AssignAll | startup_launchpad.py:81 | assigning a sequence of entries in order keeps keys distinct |
| SettingsFile.ApplyLinesOf | startup_launchpad.py:78-91 | loading the written lines assigns their entries in order |
| SettingsFile.RoundTrip | startup_launchpad.py:73-91 | under those side conditions, loading what was saved gives the defaults with every saved entry assigned over them, in order |
| SettingsFile.RoundTripMap | startup_launchpad.py:73-91 | as plain mappings, what is loaded back is the defaults overridden by the saved mapping |
| SettingsFile.AssignOverDefaults | startup_launchpad.py:75-81 | assigning the entries of a loaded mapping over the defaults rebuilds it, order included |
| SettingsFile.SaveLoadRoundTrip | startup_launchpad.py:73-91 | saving a loaded mapping whose entries meet the side conditions, then loading it, gives back the same mapping, order included |
| Launchpad.DevMode | startup_launchpad.py:96 | `settings.get("devmode", "off") == "on"` holds exactly when `devmode` is stored as "on"; the same test sets the dialog's box at line 126 |
| Launchpad.DevPrint | startup_launchpad.py:95-97 | the message is emitted exactly when `devmode` is stored as "on"; a missing key or any other value emits nothing |
| Launchpad.LoadUsername | startup_launchpad.py:57-63 | the name is never empty and never has surrounding whitespace; it is the stripped file text, or "User" when reading failed or the text is all whitespace |
| Launchpad.UsernameRoundTrip | startup_launchpad.py:61-69 | a non-empty name without surrounding whitespace and without a carriage return, as `save_username` writes it, is read back unchanged |
| Launchpad.Greeting | startup_launchpad.py:131-140 | "Good morning " exactly for 5 <= hour < 12, "Good afternoon " exactly for 12 <= hour < 18, "Good evening " exactly otherwise, so one branch applies to each hour; the start-up copy at lines 188-194 is the same rule |
| Launchpad.GridCell | startup_launchpad.py:287 | `divmod(idx, 3)` gives a column below 3 with row * 3 + column == idx |
| Launchpad.PlaceButtons | startup_launchpad.py:286-288 | every button gets a cell in one of three columns with row * 3 + column equal to its index, and no two buttons share a cell |
| Launchpad.SavedSettings | startup_launchpad.py:107-112 | `username` becomes the trimmed entry only when that is non-empty; `devmode` is "on" or "off" from the box; every other key, `bgcolor` included, keeps its value; a loaded mapping keeps its keys and order |
| Launchpad.SavedSettingsIdempotent | startup_launchpad.py:107-112 | saving the same dialog contents a second time changes nothing |
| Launchpad.SaveUntouchedDialog | startup_launchpad.py:107-129 | saving the dialog as it opens leaves the mapping as it was, for a stored name with no surrounding whitespace and `devmode` "on" or "off" |
| Launchpad.ColorPicked | startup_launchpad.py:101-104 | `bgcolor` is set only when a colour was chosen; a cancelled chooser changes nothing; no other key changes |
| Launchpad.UnrelatedKeepsDevMode | startup_launchpad.py:110-111 | storing the name does not switch dev mode, so the "Username changed" line follows the dev mode from before the save |
| Launchpad.DevModeReport | startup_launchpad.py:112-115 | once the box is stored, the dev-mode line is "Dev Mode set to on" when ticked and nothing otherwise |
| Launchpad.Settings.constructor | startup_launchpad.py:143 | the shared mapping starts as the loaded settings |
| Launchpad.Settings.SaveAndUpdate | startup_launchpad.py:107-116 | the shared mapping becomes `SavedSettings` of the old one; the text written is its serialisation; the greeting is the hour's; the name label is the stored name + "!"; the printed lines are the name change (under the old dev mode) and the dev-mode line |
| Launchpad.Settings.PickColor | startup_launchpad.py:101-106 | the shared mapping becomes `ColorPicked` of the old one; the background is repainted only with a chosen colour; the change is printed only in dev mode |

## Left out

- The tkinter window, its widgets, geometry, dragging, the colour chooser and message boxes. They are user-interface calls with no decisions in them. The chooser's answer is a parameter of `PickColor`. The dialog's entry text and box state are parameters of `SaveAndUpdate`.
- Launching applications, websites, the Start menu, Explorer, Edge, VS Code and Windows Security. These are calls into the operating system.
- Real file input and output, and the exception handling around them:
  - what was read comes in as lines or text;
  - what is written is returned;
  - a failed write in `save_settings` and `save_username` is not modelled.
- The clock. `datetime.now()` is replaced by an `hour` parameter. The date and time labels and their one-second timer are left out.
- `print` as a side effect. `dev_print` returns the lines it would print. Only the single-argument calls the program makes are modelled.
- Text.IsWhitespace: `str.strip()` removes every Unicode whitespace character. The model removes the ASCII ones only: space, tab, line feed, carriage return, vertical tab, form feed, and U+001C to U+001F.
- Text.SplitLines: the model cuts text at line feeds after Python's universal-newline translation.
  - `\r` and `\r\n` are not translated here.
  - The round-trip side conditions therefore exclude `\r` as well as `\n` from keys and values.
- Launchpad.UsernameRoundTrip: the file's text is taken after Python's universal-newline translation, which turns a `\r` into a line feed. The round trip is therefore stated only for names without `\r`.
- `load_username` and `save_username` are defined in the program but never called by it. `LoadUsername` and `UsernameRoundTrip` cover them. `save_username` itself only writes its argument.
- Launchpad.GridCell: indices are natural numbers. `divmod` of negative numbers never arises, because `enumerate` counts from 0.
