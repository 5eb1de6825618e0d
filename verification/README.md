# IKEMEN GO plugin manager — a Dafny model of its core

The plugin manager is a small desktop tool for the IKEMEN GO fighting-game
engine. It finds every `.zss` plugin file under the content directory,
gives each one a display name, and edits the `States` entry of
`save/config.ini`. That entry is the comma-separated load order of the
enabled plugins. This project models the logic behind the widgets as pure
functions and proves properties about it:

- **Plugin titles** (`PluginTitle`): `get_plugin_name` decides a plugin's
  display name from the first one or two lines of its file. It is the text
  of a `#` comment, the comment behind a `=` banner, or the file's base
  name when the comment is missing, empty or boilerplate.
- **The `States` codec** (`StatesCodec`, built on `Text`): the line parser
  splits on `,`, strips each piece and drops empty pieces. The save action
  joins entries with `", "`. The project proves the round trip in both
  directions.
- **Discovery** (`PluginCatalog`): the walk over the plugin files becomes
  an insertion-ordered dictionary from normalised path (`\` replaced by
  `/`) to display name.
- **Configuration** (`IniConfig`): reading and writing the one key
  `Common`/`States` of an ini file, modelled as a map of maps.
- **The editing session** (`PluginManager`): the catalog, the enabled list
  and the snapshot taken at load and save. Add, remove, move up, move
  down, reset to default and save are transitions on this record. The
  "unsaved changes" flag is the comparison of the enabled list with the
  snapshot. Runs of user actions are modelled too. The project proves
  that, when every discovered plugin path is itself a parser entry (no
  comma and no whitespace at either end), saving after any run of actions
  and then reloading gives back the enabled list. A path that holds a
  comma does not survive this: the program enables and saves it, but the
  saved line reads back as two different paths
  (`PluginManager.CommaPathSplitsOnReload`, `PluginManager.CommaPathExample`).

Python's `str.strip()` is written out with the code points that
`str.isspace` accepts. `str.lower()` is ASCII case folding (see Left out).
File contents, directory listings and the configuration file are inputs.
A value that could not be read, because the file is missing or a read
raised, is `None`.

Three behaviours of the code deserve a note:

- `has_unsaved_changes` (line 186) compares the enabled list with the
  snapshot. No edit sets a flag. Moving an entry up and then down again
  therefore leaves a clean session clean (`PluginManager.MoveUpThenDown`).
- `set_to_default` (lines 294-297) replaces the list without comparing it
  with the current one. The session is dirty afterwards exactly when the
  defaults differ from the snapshot (`PluginManager.SetToDefault`).
- `add_plugin` selects a plugin by its display name (lines 239-240).
  Adding is idempotent only when that name is unique in the catalog. Two
  plugins with the same base name are enabled one after the other by two
  adds of that name (`PluginManager.AddSameNameTwice`,
  `PluginManager.AddIdempotent`).

## Model

| member | source | states |
|---|---|---|
| Text.Strip | ikemen-go-plugin-manager.py:107 | the stripped line has no whitespace at either end and is no longer than the line |
| Text.TrimStartShape | ikemen-go-plugin-manager.py:107 | the leading part that is cut away holds only whitespace, and what is kept is the rest of the line |
| Text.TrimEndShape | ikemen-go-plugin-manager.py:107 | the trailing part that is cut away holds only whitespace, and what is kept is the start of the line |
| Text.StripShape | ikemen-go-plugin-manager.py:107 | the stripped line is a contiguous piece of the line, with only whitespace cut away before and after it |
| Text.StripChars | ikemen-go-plugin-manager.py:161 | stripping never introduces a character, so a comma-free piece stays comma-free |
| Text.StripPadded | ikemen-go-plugin-manager.py:118 | any stripped text surrounded by any whitespace strips back to exactly that text |
| Text.StripFixpoint | ikemen-go-plugin-manager.py:161 | a string is left alone by strip exactly when it has no whitespace at either end; strip is idempotent |
| Text.StripLeadingSpace | ikemen-go-plugin-manager.py:161 | one leading whitespace character does not change the stripped text |
| Text.Lower | ikemen-go-plugin-manager.py:132 | lower-casing keeps the length and leaves no upper-case ASCII letter; each upper-case letter becomes its lower-case partner, 32 code points up, and every other character is unchanged |
| Text.LowerIgnoresCase | ikemen-go-plugin-manager.py:98-132 | two strings that are equal up to the case of their letters lower to the same string, so the boilerplate test does not depend on letter case |
| Text.LowerIdempotent | ikemen-go-plugin-manager.py:132 | lowering a lowered string changes nothing |
| Text.LowerAppend | ikemen-go-plugin-manager.py:132 | lowering a concatenation lowers each part |
| Text.Split | ikemen-go-plugin-manager.py:161 | a split always has at least one piece, so even the empty line gives one (empty) piece |
| Text.SplitPieces | ikemen-go-plugin-manager.py:161 | no piece of a split contains the separator |
| Text.SplitCons | ikemen-go-plugin-manager.py:161 | a leading separator starts a new empty piece; any other leading character joins the first piece |
| Text.SplitJoin | ikemen-go-plugin-manager.py:161 | joining the split pieces with the separator rebuilds the original string |
| Text.SplitNoSep | ikemen-go-plugin-manager.py:161 | a string without the separator splits into itself alone |
| Text.SplitAppend | ikemen-go-plugin-manager.py:161 | the pieces of `a + sep + b` are the pieces of `a` followed by the pieces of `b` |
| Text.SplitAppendStep | ikemen-go-plugin-manager.py:161 | a character in front of a split that ends in further pieces only extends the first piece |
| Text.Join | ikemen-go-plugin-manager.py:329 | joining no items gives the empty string, and a join starts with its first item; `Text.SplitJoin` and `Text.JoinSplit` relate it to splitting |
| Text.JoinSplit | ikemen-go-plugin-manager.py:329 | splitting a join of separator-free pieces gives the pieces back |
| StatesCodec.Clean | ikemen-go-plugin-manager.py:161 | keeping only the non-empty stripped pieces yields well-formed entries, never more than there were pieces |
| StatesCodec.Parse | ikemen-go-plugin-manager.py:159-162 | every parsed entry is non-empty, comma-free and has no whitespace at either end |
| StatesCodec.ParseEmpty | ikemen-go-plugin-manager.py:161 | the empty line holds no plugins |
| StatesCodec.ParseConcat | ikemen-go-plugin-manager.py:161 | the entries of `a,b` are those of `a` followed by those of `b`: order of appearance is kept, and duplicates are kept |
| StatesCodec.ParseSingle | ikemen-go-plugin-manager.py:161 | a comma-free line yields its stripped text, or nothing when that is blank |
| StatesCodec.ParseLeadingSpace | ikemen-go-plugin-manager.py:161 | whitespace in front of the first entry is ignored |
| StatesCodec.CleanSameHead | ikemen-go-plugin-manager.py:161 | two first pieces that strip to the same text give the same entries |
| StatesCodec.WellFormedConcat | ikemen-go-plugin-manager.py:161 | two lists of parser entries put together are a list of parser entries |
| StatesCodec.Serialize | ikemen-go-plugin-manager.py:329 | the empty list gives the empty line, one entry gives itself, and a longer list starts with its first entry and `", "`; `StatesCodec.SerializeParse` states when parsing reverses it |
| StatesCodec.SerializeCons | ikemen-go-plugin-manager.py:329 | the joined line is the first entry, a comma, a space and the join of the rest |
| StatesCodec.SerializeParseWellFormed | ikemen-go-plugin-manager.py:329 | parsing the `", "` join of well-formed entries gives the same list |
| StatesCodec.SerializeParse | ikemen-go-plugin-manager.py:329 | parse after join is the identity exactly on lists of well-formed entries (both directions) |
| StatesCodec.RoundTrip | ikemen-go-plugin-manager.py:161 | parsing, joining and parsing again equals parsing once, and the empty line parses to the empty list |
| PluginTitle.Title | ikemen-go-plugin-manager.py:96-143 | the display name is the base name or a non-empty stripped candidate whose lower-cased form is not boilerplate |
| PluginTitle.TitleSource | ikemen-go-plugin-manager.py:117-137 | a name other than the base name is the first line's comment text, or the second line's when the first is a banner |
| PluginTitle.BannerIsCharSet | ikemen-go-plugin-manager.py:123 | the banner test is the character-set test `set(content) == {'='}` |
| PluginTitle.TitleFallbacks | ikemen-go-plugin-manager.py:105-120 | an unreadable first line, a blank one, one not starting with `#`, or a bare `#` gives the base name |
| PluginTitle.TitleIgnoresSecond | ikemen-go-plugin-manager.py:122-129 | the second line is consulted only when the first line's comment is a banner |
| PluginTitle.TitleBanner | ikemen-go-plugin-manager.py:122-137 | behind a banner, an unreadable or non-comment second line gives the base name, and a title comment there gives its text |
| PluginTitle.Accept | ikemen-go-plugin-manager.py:131-137 | a non-empty candidate whose lower-cased form is not boilerplate is the name; an empty or boilerplate candidate gives the base name |
| PluginTitle.AcceptBoilerplateAnyCase | ikemen-go-plugin-manager.py:131-133 | a candidate that spells a lower-case boilerplate entry in any letter case gives the base name |
| PluginTitle.TitleBoilerplate | ikemen-go-plugin-manager.py:131-133 | a first-line comment whose lower-cased text is boilerplate gives the base name |
| PluginTitle.TitleBoilerplateAnyCase | ikemen-go-plugin-manager.py:131-133 | a first-line comment that spells a lower-case boilerplate entry in any letter case gives the base name |
| PluginTitle.NotTitlesLowerCase | ikemen-go-plugin-manager.py:99-103 | every boilerplate entry is already lower case, so each is matched in any letter case |
| PluginTitle.CommentLine | ikemen-go-plugin-manager.py:114-118 | a padded `# text` line is recognised as a comment whose text is exactly `text` |
| PluginTitle.TitleOfComment | ikemen-go-plugin-manager.py:105-137 | a title written as a first-line comment, with any padding, is extracted unchanged whatever the second line holds |
| PluginTitle.TitleBehindBanner | ikemen-go-plugin-manager.py:122-137 | a banner comment followed by a title comment yields that title |
| PluginTitle.MyPluginExample | ikemen-go-plugin-manager.py:105-137 | `# My Plugin` gives the title `My Plugin` |
| PluginTitle.RealTitleExample | ikemen-go-plugin-manager.py:122-137 | `# ======` followed by `# Real Title` gives `Real Title` |
| PluginTitle.CodeLineExample | ikemen-go-plugin-manager.py:113-115 | a code first line gives the base name and the second line is not used |
| PluginTitle.FunctionsExample | ikemen-go-plugin-manager.py:131-133 | `# FUNCTIONS` gives the base name, because boilerplate matching ignores case |
| PluginCatalog.Paths | ikemen-go-plugin-manager.py:239 | the dictionary's keys, one per entry, in iteration order |
| PluginCatalog.Lookup | ikemen-go-plugin-manager.py:221 | `get` finds nothing exactly when the path is not a key, and otherwise returns a name stored with that path |
| PluginCatalog.LookupAt | ikemen-go-plugin-manager.py:221 | with unique keys, `get` returns the name stored in the key's own entry |
| PluginCatalog.Put | ikemen-go-plugin-manager.py:155 | assigning to an existing key keeps the key order; assigning to a new key appends it |
| PluginCatalog.PutLookup | ikemen-go-plugin-manager.py:155 | after the assignment the key maps to the new name and every other key keeps its name |
| PluginCatalog.PutDistinct | ikemen-go-plugin-manager.py:155 | assignment keeps the keys unique |
| PluginCatalog.PutPaths | ikemen-go-plugin-manager.py:155 | after an assignment the keys are the old keys plus the assigned path |
| PluginCatalog.Assign | ikemen-go-plugin-manager.py:152-155 | the loop of assignments; its lemmas state that the keys are unique (`AssignDistinct`), are exactly the assigned paths (`AssignHasKeys`, `AssignKeys`), and map to the name of the last assignment to each (`AssignLastWins`) |
| PluginCatalog.AssignDistinct | ikemen-go-plugin-manager.py:152-155 | the loop's assignments leave every path in the dictionary once |
| PluginCatalog.AssignHasKeys | ikemen-go-plugin-manager.py:152-155 | every assigned path is a key of the resulting dictionary |
| PluginCatalog.AssignHasKey | ikemen-go-plugin-manager.py:152-155 | the path of any one assignment is a key of the resulting dictionary |
| PluginCatalog.AssignKeys | ikemen-go-plugin-manager.py:152-155 | every key of the resulting dictionary is one of the assigned paths |
| PluginCatalog.AssignLastWins | ikemen-go-plugin-manager.py:152-155 | a path's name is the one from the last assignment to that path |
| PluginCatalog.NormalizePath | ikemen-go-plugin-manager.py:155 | every backslash becomes `/`, every other character stays in place, and no backslash remains |
| PluginCatalog.NormalizeIdempotent | ikemen-go-plugin-manager.py:155 | normalising twice equals normalising once, and a path without backslashes is unchanged |
| PluginCatalog.Build | ikemen-go-plugin-manager.py:147-157 | the catalog has unique keys, contains every discovered file's normalised path, and no key holds a backslash |
| PluginCatalog.FindAllPlugins | ikemen-go-plugin-manager.py:145-157 | a missing plugin root gives the empty catalog; otherwise every file found is in it under its normalised path |
| PluginCatalog.BuildKeysFromFiles | ikemen-go-plugin-manager.py:152-155 | every catalog key is the normalised path of some discovered file |
| PluginCatalog.LastWins | ikemen-go-plugin-manager.py:152-155 | when several files normalise to one path, the name of the last one walked is kept |
| IniConfig.LoadEnabled | ikemen-go-plugin-manager.py:164-182 | the list read is well formed, and is empty when the file is missing, unreadable, or lacks the section or the key |
| IniConfig.StoreStates | ikemen-go-plugin-manager.py:331-334 | `Common` is created when missing and `States` is set; every other section and every other key is untouched |
| IniConfig.StoreThenLoad | ikemen-go-plugin-manager.py:329-334 | loading a file after storing a joined list gives that list back exactly when its entries are well formed |
| PluginManager.HasUnsavedChanges | ikemen-go-plugin-manager.py:184-186 | the session is dirty exactly when the enabled list differs from the snapshot; `Load`, a successful `Save` and `SetToDefault` state when it holds |
| PluginManager.Load | ikemen-go-plugin-manager.py:195-205 | a freshly loaded session has no unsaved changes, well-formed enabled entries and unique catalog keys |
| PluginManager.AvailableOf | ikemen-go-plugin-manager.py:224-227 | an entry is available exactly when it is in the catalog and its path is not enabled |
| PluginManager.EnabledNames | ikemen-go-plugin-manager.py:219-222 | each enabled row shows its catalog name, or the path itself when the catalog does not know it |
| PluginManager.FindAddable | ikemen-go-plugin-manager.py:239-240 | the search finds the first entry from its start position that has the name and is not enabled, or reports that there is none |
| PluginManager.Add | ikemen-go-plugin-manager.py:229-245 | the list is unchanged exactly when no catalog entry with the name is addable; otherwise the first such entry's path is appended |
| PluginManager.Remove | ikemen-go-plugin-manager.py:247-257 | exactly the selected entry is removed and the others keep their order; no selection changes nothing |
| PluginManager.SwapNext | ikemen-go-plugin-manager.py:269-270 | the tuple assignment exchanges two neighbours, touches nothing else and keeps the multiset |
| PluginManager.MoveUp | ikemen-go-plugin-manager.py:262-270 | the selected entry swaps with the one above; no selection or the first row is a no-op; the multiset is kept |
| PluginManager.MoveDown | ikemen-go-plugin-manager.py:277-285 | the selected entry swaps with the one below; no selection or the last row is a no-op; the multiset is kept |
| PluginManager.SwapTwice | ikemen-go-plugin-manager.py:269-270 | exchanging the same two neighbours twice restores the list |
| PluginManager.PartWellFormed | ikemen-go-plugin-manager.py:294 | paths without commas that start with `d` and end with `s` are all parser entries |
| PluginManager.DefaultWellFormed | ikemen-go-plugin-manager.py:294 | every default path is a parser entry |
| PluginManager.DistinctConcat | ikemen-go-plugin-manager.py:294 | two repeat-free lists with no common path join into a repeat-free list |
| PluginManager.DisjointConcat | ikemen-go-plugin-manager.py:294 | two lists that share no path with a third still share none once joined |
| PluginManager.DefaultDistinct | ikemen-go-plugin-manager.py:294 | the default load order has 31 paths, none repeated |
| PluginManager.DefaultLineParses | ikemen-go-plugin-manager.py:294-296 | parsing the default line gives exactly the 31 default paths in order |
| PluginManager.SetToDefault | ikemen-go-plugin-manager.py:292-297 | the list becomes the default list whatever it was, the snapshot is untouched, and the session is dirty exactly when the snapshot differs from the defaults |
| PluginManager.Save | ikemen-go-plugin-manager.py:318-348 | a failed read or write changes nothing; a save writes the `", "` join under `Common`/`States`, keeps the other sections and resets the snapshot |
| PluginManager.AddMatchesAvailable | ikemen-go-plugin-manager.py:224-241 | add changes the list exactly when an available entry has the name, and then appends that entry's path |
| PluginManager.AddNoDuplicates | ikemen-go-plugin-manager.py:239-241 | add never creates a duplicate and never moves existing entries |
| PluginManager.AddIdempotent | ikemen-go-plugin-manager.py:239-245 | when the name is unique in the catalog, adding twice equals adding once |
| PluginManager.AddSameNameTwice | ikemen-go-plugin-manager.py:239-245 | two plugins sharing a name are enabled one per add, in catalog order |
| PluginManager.AddThenRemove | ikemen-go-plugin-manager.py:239-257 | removing the row an add appended restores the session |
| PluginManager.MoveUpThenDown | ikemen-go-plugin-manager.py:262-285 | moving a row up and then down restores the session, so a clean session stays clean |
| PluginManager.MoveDownThenUp | ikemen-go-plugin-manager.py:262-285 | moving a row down and then up restores the session |
| PluginManager.MoveUpIsMoveDown | ikemen-go-plugin-manager.py:262-285 | moving row `i` up is the same as moving row `i - 1` down |
| PluginManager.SaveThenReload | ikemen-go-plugin-manager.py:318-341 | a save succeeds with a readable file and a working write, leaves the session clean, and the file reloads to the list exactly when its entries are well formed |
| PluginManager.Apply | ikemen-go-plugin-manager.py:229-297 | no editing action touches the catalog or the snapshot |
| PluginManager.Run | ikemen-go-plugin-manager.py:229-297 | no run of editing actions touches the catalog or the snapshot |
| PluginManager.ApplyKeepsWellFormed | ikemen-go-plugin-manager.py:229-297 | each editing action keeps every enabled entry a well-formed parser entry |
| PluginManager.RunKeepsWellFormed | ikemen-go-plugin-manager.py:229-297 | any run of editing actions keeps the enabled entries well formed |
| PluginManager.SavedListReloads | ikemen-go-plugin-manager.py:195-341 | when every discovered path is a parser entry (comma-free, no whitespace at either end), after load, any run of actions and a save, reloading the file gives exactly the session's enabled list and the session is clean |
| PluginManager.CommaPathSplitsOnReload | ikemen-go-plugin-manager.py:145-341 | a discovered file at `a,b`, whose halves are parser entries, is enabled by add and saved unchanged, but the line reloads as `a` and `b`, not as the enabled list; such a catalog breaks the condition of `SavedListReloads` |
| PluginManager.CommaPathExample | ikemen-go-plugin-manager.py:145-341 | a discovered `data/a,b.zss` is saved as `States = data/a,b.zss` and reloads as `["data/a", "b.zss"]` |
| PluginManager.SaveCommaPath | ikemen-go-plugin-manager.py:159-334 | saving the single path `a,b` writes it unchanged, and the written line loads as `a` and `b` |
| PluginManager.SingleCatalog | ikemen-go-plugin-manager.py:145-157 | one file with no backslash in its path and an unreadable first line is catalogued under its path and base name |
| PluginManager.AddToSingle | ikemen-go-plugin-manager.py:239-241 | with one catalog entry and nothing enabled, adding by its name enables its path |
| PluginManager.WorkedKeys | ikemen-go-plugin-manager.py:155 | `a.zss` is already normal and `sub\b.zss` normalises to `sub/b.zss` |
| PluginManager.WorkedTitleA | ikemen-go-plugin-manager.py:105-137 | a file starting `# Alpha` is displayed as `Alpha` |
| PluginManager.WorkedTitleB | ikemen-go-plugin-manager.py:113-115 | a file starting with code is displayed under its base name |
| PluginManager.BuildTwo | ikemen-go-plugin-manager.py:152-155 | two files with different keys give two entries, in walk order |
| PluginManager.AssignTwo | ikemen-go-plugin-manager.py:155 | assigning two different paths gives two entries, in assignment order |
| PluginManager.WorkedCatalog | ikemen-go-plugin-manager.py:145-157 | discovering both files gives `[("a.zss", "Alpha"), ("sub/b.zss", "b.zss")]` |
| PluginManager.WorkedStates | ikemen-go-plugin-manager.py:175-178 | `States = a.zss` loads as `["a.zss"]` |
| PluginManager.WorkedAdd | ikemen-go-plugin-manager.py:239-241 | adding `b.zss` appends `sub/b.zss` |
| PluginManager.WorkedLine | ikemen-go-plugin-manager.py:329 | the two paths join to `a.zss, sub/b.zss` |
| PluginManager.WorkedSession | ikemen-go-plugin-manager.py:195-341 | load, add by displayed name, and save write `a.zss, sub/b.zss` |

## Left out

- The Tkinter window, listbox rendering, status labels and button styling are left out: they are display only.
- Selection handling is left out. A selection is an input (`Option<nat>` for the enabled list, a display name for add), and the model does not track which row stays selected after a move.
- The add action without a selection is not modelled: it returns before touching any state, so it is the absence of an action.
- The case-insensitive sort of the available list (line 225) is left out. It only orders the display, while add searches the catalog in dictionary order, which the model keeps.
- File I/O is left out. `open`/`readline` results, the walk order of `rglob`, each file's relative path and base name, and whether the plugin and configuration paths exist are all inputs. A read that raised is `None`.
- The configuration parser is left out. The model reads and writes a map of maps, and does not model the DEFAULT section, value interpolation, multi-line values, comment loss or the file format `write` produces.
- The backup copy made before saving (`create_backup`, lines 305-316) is left out. It is a file-system side effect whose failure does not stop the save.
- Error reporting through `print` and `messagebox` is left out. Only its effect is modelled: the base name, the empty list, or an unchanged session.
- Text.Lower: folds only ASCII letters, while Python's `str.lower()` folds all of Unicode. This only matters for a boilerplate check on non-ASCII titles, and the boilerplate lines are ASCII.
- PluginManager.DefaultLine: written as the default paths joined with `", "`. That text is the literal on line 294 character for character, but the model does not restate the 1082-character literal itself.
