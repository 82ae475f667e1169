/** The watch callback for a newly created entry: directories are ignored,
    a file is classified by its extension and renamed into the target
    directory of its category under its own base name. The rename itself is
    not performed; the model yields the pair of paths it would be given. */
module FileHandler {

  import opened Paths
  import opened Classifier

  /** The five keys of the target-directory dictionary the application builds. */
  const Keys: set<string> := {"video", "pictures", "documents", "music", "other"}

  /** The key under which a category's target directory is stored: always
      one of the five keys the application builds. */
  function Key(c: Category): (k: string)
    ensures k in Keys
  {
    match c
    case Video => "video"
    case Pictures => "pictures"
    case Documents => "documents"
    case Music => "music"
    case Other => "other"
  }

  /** Every category has its own key, and every key belongs to a category. */
  lemma KeysMatchCategories()
    ensures forall c :: Key(c) in Keys
    ensures forall c, d :: Key(c) == Key(d) ==> c == d
    ensures forall k :: k in Keys ==> exists c :: Key(c) == k
  {
    assert Key(Video) == "video";
    assert Key(Pictures) == "pictures";
    assert Key(Documents) == "documents";
    assert Key(Music) == "music";
    assert Key(Other) == "other";
  }

  /** A creation event as the watcher reports it. */
  datatype Event = Event(isDirectory: bool, srcPath: string)

  /** The handler's configuration: the watched directory and a dictionary
      from category key to target directory. */
  datatype Handler = Handler(sourceDir: string, targetDirs: map<string, string>)

  /** What the callback does with one event: nothing, a rename, or a failed
      dictionary lookup (a missing key raises inside the callback). */
  datatype Action = Ignore | Rename(src: string, dst: string) | KeyError(key: string)

  /** The category of a created file, decided by its extension alone: a
      listed category only for a file that has an extension, and one whose
      lower-cased form is in that category's list. */
  function CategoryOf(path: string): (c: Category)
    ensures c != Other ==> Extension(path) != [] && Lower(Extension(path)) in ExtensionsOf(c)
    ensures c == Other <==> forall k :: Lower(Extension(path)) !in ExtensionsOf(k)
  {
    Classify(Extension(path))
  }

  function OnCreated(h: Handler, e: Event): (a: Action)
    ensures a == Ignore <==> e.isDirectory
    ensures a.KeyError? <==> !e.isDirectory && Key(CategoryOf(e.srcPath)) !in h.targetDirs
    ensures a.KeyError? ==> a.key == Key(CategoryOf(e.srcPath))
    ensures a.Rename? ==> a.src == e.srcPath
  {
    if e.isDirectory then Ignore
    else
      var key := Key(CategoryOf(e.srcPath));
      if key !in h.targetDirs then KeyError(key)
      else Rename(e.srcPath, Join(h.targetDirs[key], Basename(e.srcPath)))
  }

  /** A rename keeps the file's base name and puts it directly inside the
      target directory of the file's category: the destination's directory
      part is that directory, with a separator appended unless it is empty or
      already ends in one. */
  lemma RenameTarget(h: Handler, e: Event)
    requires OnCreated(h, e).Rename?
    ensures var a, t := OnCreated(h, e), h.targetDirs[Key(CategoryOf(e.srcPath))];
      && Basename(a.dst) == Basename(e.srcPath)
      && ((t == [] || t[|t| - 1] == Sep) ==> Head(a.dst) == t)
      && ((t != [] && t[|t| - 1] != Sep) ==> Head(a.dst) == t + [Sep])
  {
    JoinThenSplit(h.targetDirs[Key(CategoryOf(e.srcPath))], Basename(e.srcPath));
  }

  /** With a dictionary holding exactly the five category keys the lookup
      never fails: every file event becomes a rename. */
  lemma FileEventsAreRenamed(h: Handler, e: Event)
    requires h.targetDirs.Keys == Keys
    requires !e.isDirectory
    ensures OnCreated(h, e).Rename?
  {
    KeysMatchCategories();
  }

  /** Only the last component decides the category: the handler routes a
      path exactly as it would route its base name alone. */
  lemma CategoryIgnoresDirectories(path: string)
    ensures CategoryOf(path) == CategoryOf(Basename(path))
  {
    ExtensionIgnoresDirectories(path);
  }

  /** Only the last dot of the final component counts: a file whose name is
      a stem with some non-dot character followed by a dot-led, dot-free
      suffix is classified by that suffix alone, whatever dots the stem or
      the directory part hold ("clip.tar.mp4" is a video, "photo.JPG" a
      picture, "archive.zip" other). */
  lemma ClassifiedByLastSuffix(dir: string, stem: string, ext: string)
    requires dir == [] || dir[|dir| - 1] == Sep
    requires Lacks(stem, Sep) && NonDotIn(stem, 0, |stem|)
    requires DotLed(ext) && Lacks(ext, Sep)
    ensures CategoryOf(dir + (stem + ext)) == Classify(ext)
  {
    var b := stem + ext;
    assert b[|b| - |ext|..] == ext;
    assert NonDotIn(b, 0, |b| - |ext|) by {
      var i :| 0 <= i < |stem| && stem[i] != ExtSep;
      assert b[i] == stem[i];
    }
    assert Lacks(b, Sep) by {
      assert forall i :: 0 <= i < |b| ==> b[i] == if i < |stem| then stem[i] else ext[i - |stem|];
    }
    ExtensionFromSuffix(dir, b, ext);
  }

  /** A name with no dot after a non-dot character (".mp4", ".bashrc",
      "..a", "README") has no extension and goes to "other". */
  lemma NameWithoutStemIsOther(dir: string, name: string)
    requires dir == [] || dir[|dir| - 1] == Sep
    requires Lacks(name, Sep)
    requires !DotAfterStem(name)
    ensures CategoryOf(dir + name) == Other
  {
    NoExtensionWithoutStem(dir, name);
    EmptyAndDotAreOther();
  }

}
