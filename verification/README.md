# Auto File Sorter: the classify-and-route core

The Auto File Sorter watches one source directory and moves every newly
created file into one of five target directories — video, pictures,
documents, music or other — chosen by the file's extension. This project
models, in Dafny, the decision the watch callback `FileHandler.on_created`
makes for one creation event, and the guard of the `App.start` command that
decides whether a watch is set up at all.

The model is purely functional:

- `Paths` (paths.dfy) gives POSIX path handling as the callback uses it:
  the last separator (`RFind`), the base name, two-component `Join`, and
  `SplitExt`, the root/extension split. Only `/` is a separator. `Head`,
  the directory part of a path, is not computed by the callback. It is the
  helper used to state where the destination of the rename lies.
- `Classifier` (classifier.dfy) gives the `Category` datatype, ASCII
  lower-casing, the four fixed extension lists, and `Classify`, the
  four-branch lookup with "other" as the fallback.
- `FileHandler` (file_handler.dfy) gives the dictionary keys of the
  categories and `OnCreated`. It maps a handler configuration and an event
  `(isDirectory, srcPath)` to `Ignore`, to `Rename(src, dst)` (the pair the
  callback passes to the rename call), or to `KeyError(key)` when the
  target dictionary lacks the category's key.
- `Organizer` (organizer.dfy) gives the application state the start command
  reads and changes: the entry-field values, the settings file's contents
  and the watches that are running. `Start` is a function on that state.
- `Wrappers` (wrappers.dfy) holds `Option`.

Points of the code's behaviour that the model keeps deliberately:

- When the guard fails, `start` returns without saving or scheduling
  anything and raises no error. `Start` returns the state unchanged.
- `splitext` ignores leading dots: `.bashrc`, `..a` and `.mp4` have no
  extension. `SplitExt` follows `splitext`.
- The categories are one fixed four-branch chain over fixed lists, and
  `Classify` models that chain. `ClassifyByTable` shows that the branch
  order cannot matter, because the lists are disjoint.
- `os.rename` errors are not caught by the callback. The model stops at
  the `(src, dst)` pair.
- Every successful `start` creates a new observer without stopping the one
  already running. `AppState.watches` holds all running watches, and
  `Start` appends to it.

## Model

| member | source | states |
|---|---|---|
| `Paths.RFind` | Sort_Mover.py:19 | The index of the last occurrence of a character, or -1: the character is there and never occurs after it. |
| `Paths.Basename` | Sort_Mover.py:32 | The base name is a separator-free suffix of the path, and it is preceded by a separator whenever it is shorter than the path. |
| `Paths.Head` | Sort_Mover.py:32 | The directory part followed by the base name gives back the path, and the directory part is empty or ends in a separator. |
| `Paths.SplitUnique` | Sort_Mover.py:32 | A path splits into a directory part and a separator-free name in exactly one way, and `Head` and `Basename` find that split. |
| `Paths.BasenameIdempotent` | Sort_Mover.py:32 | Taking the base name twice changes nothing. |
| `Paths.Join` | Sort_Mover.py:32 | Joining a name that is not absolute keeps the directory as a prefix and the name as a suffix, adding at most one character. An absolute name replaces the directory. |
| `Paths.JoinThenSplit` | Sort_Mover.py:32 | Joining a directory with a separator-free name and splitting the result gives back the name. The directory part is the directory, with one separator added unless it is empty or already ends in one. |
| `Paths.SplitExt` | Sort_Mover.py:19 | Root followed by extension gives back the path. A non-empty extension starts with a dot, has no other dot and has no separator. |
| `Paths.Extension` | Sort_Mover.py:19 | The extension is empty, or a suffix of the path that starts with a dot and holds no other dot and no separator. `ExtensionFromSuffix` and `NoExtensionWithoutStem` pin it down completely. |
| `Paths.ExtensionExists` | Sort_Mover.py:19 | The extension is non-empty exactly when some dot of the base name comes after a non-dot character of the base name. |
| `Paths.ExtensionIsSuffixOfBasename` | Sort_Mover.py:19 | A non-empty extension is a proper suffix of the base name. |
| `Paths.ExtensionIgnoresDirectories` | Sort_Mover.py:19 | Only the last path component counts: a path and its base name have the same extension. |
| `Paths.ExtensionFromSuffix` | Sort_Mover.py:19 | The extension, stated without the algorithm: the dot-led, dot-free suffix of the name that has a non-dot character before it. |
| `Paths.NoExtensionWithoutStem` | Sort_Mover.py:19 | A name in which no dot follows a non-dot character has the empty extension. |
| `Classifier.Lower` | Sort_Mover.py:21-27 | Lower-casing keeps the length, maps each character by ASCII lower-casing, and leaves no upper-case letter. |
| `Classifier.LowerIdempotent` | Sort_Mover.py:21-27 | Lower-casing twice is the same as lower-casing once. |
| `Classifier.LowerOfUpper` | Sort_Mover.py:21-27 | Upper-casing first does not change the lower-cased form. |
| `Classifier.Classify` | Sort_Mover.py:21-30 | A listed category is returned only when the lower-cased extension is in its list. The result is "other" exactly when the lower-cased extension is in no list. |
| `Classifier.ExtensionListsDisjoint` | Sort_Mover.py:21-28 | No extension is in the lists of two categories. |
| `Classifier.ClassifyByTable` | Sort_Mover.py:21-28 | For each listed category, an extension gets that category exactly when its lower-cased form is in that category's list, so branch order does not matter. |
| `Classifier.ListedExtensionsClassify` | Sort_Mover.py:21-28 | Each of the twelve listed extensions gets exactly its own category. |
| `Classifier.ClassifyIgnoresCase` | Sort_Mover.py:21-27 | An extension, its lower-cased form and its upper-cased form all get the same category. |
| `Classifier.EmptyAndDotAreOther` | Sort_Mover.py:29-30 | The empty extension and a lone dot get "other". |
| `FileHandler.Key` | Sort_Mover.py:22-30 | The key each branch looks up is one of the five keys of the application's dictionary. `KeysMatchCategories` shows the keys are distinct and cover the dictionary. |
| `FileHandler.CategoryOf` | Sort_Mover.py:19-30 | A file gets a listed category only when it has an extension whose lower-cased form is in that category's list. It gets "other" exactly when the lower-cased extension is in no list. `ClassifiedByLastSuffix` and `NameWithoutStemIsOther` state the category directly in terms of the file name. |
| `FileHandler.KeysMatchCategories` | Sort_Mover.py:40-46 | The five category keys are pairwise distinct. They are exactly the keys of the target-directory dictionary the application builds. |
| `FileHandler.OnCreated` | Sort_Mover.py:14-32 | A directory event is ignored, and only a directory event is. A file event raises a key error exactly when its category's key is missing. Otherwise it renames the event's own path. |
| `FileHandler.RenameTarget` | Sort_Mover.py:32 | The rename keeps the base name. Its destination lies directly inside the target directory of the file's category. |
| `FileHandler.FileEventsAreRenamed` | Sort_Mover.py:22-30 | With the five-key dictionary the lookup never fails, so every file event becomes a rename. |
| `FileHandler.CategoryIgnoresDirectories` | Sort_Mover.py:19-30 | A path is routed exactly as its base name alone would be, so dots in directory names do not matter. |
| `FileHandler.ClassifiedByLastSuffix` | Sort_Mover.py:19-30 | A name made of a stem with a non-dot character and a dot-led, dot-free suffix is classified by that suffix alone. So `clip.tar.mp4` is a video. |
| `FileHandler.NameWithoutStemIsOther` | Sort_Mover.py:19-30 | A name with no dot after a non-dot character goes to "other". This covers `.mp4`, `.bashrc` and `README`. |
| `Organizer.ConfigComplete` | Sort_Mover.py:88 | The guard implies a non-empty source directory. Over the five target fields it implies a non-empty target directory for every category. `GuardPerCategory` gives the converse. |
| `Organizer.Start` | Sort_Mover.py:84-92 | The entry fields are unchanged. A failed guard leaves the whole state unchanged. A passed guard saves the settings and adds a non-recursive watch of the source directory, keeping the watches already running. The new watch's handler has a snapshot of the target directories. |
| `Organizer.GuardPerCategory` | Sort_Mover.py:85-88 | Over the five target fields, the guard holds exactly when the source directory and every category's target directory are non-empty. |
| `Organizer.StartGuard` | Sort_Mover.py:84-92 | Settings are saved and one watch is added to those running when the source directory and all five target directories are non-empty. Otherwise start has no effect at all. |
| `Organizer.StartTwiceWatchesTwice` | Sort_Mover.py:88-92 | Two successful starts leave two identical watches of the source directory running, in addition to the earlier ones. |
| `Organizer.ScheduledHandlerRoutesEveryFile` | Sort_Mover.py:14-32 | After a successful start, every file event is renamed. The rename keeps the file's path as source and its base name, and puts it in its category's target directory, which is non-empty. |

## Left out

- The graphical interface (`App.__init__` widgets, the folder pickers, the
  Start and Stop buttons) is user-interface code with no decision logic.
- `App.stop` and the watchdog observer's `start`, `stop` and `join` are
  threading inside a third-party library. `stop` stops only the newest
  observer and never clears the attribute, and it is not modelled. The
  watches earlier starts left running would stay live after it.
- `load_settings` and `save_settings` are configparser file I/O. Saving is
  modelled only as "the settings file now holds this snapshot"
  (`AppState.settingsFile`), and the file format is not modelled.
- The effect of `os.rename` (collisions, missing directories, permissions,
  cross-device moves) is operating-system behaviour. The model yields only
  the `(src, dst)` pair the callback passes to it.
- `Classifier.Lower`: models ASCII lower-casing only, unlike Python's
  Unicode `str.lower` and `str.upper`. Non-ASCII letters whose lower- or
  upper-case form is ASCII are classified differently from the program.
  For example, KELVIN SIGN U+212A lower-cases to `k`, so `.m` + U+212A +
  `v` is a video in the program but "other" in the model. Dotless i U+0131
  upper-cases to `I`, so the `Upper` clause of `ClassifyIgnoresCase` does
  not carry over to Python for such letters.
- `Paths.Join`: models POSIX `os.path.join` for two components only, with
  `/` as the only separator. Windows separators and drive letters are not
  modelled.
- `SplitExt`, `Basename` and `Join` follow the documented POSIX behaviour
  of Python's `os.path`. The library's own code is not modelled.
- The watch filter by event type: the handler only sees creation events,
  and the watchdog library decides which filesystem changes become one.
