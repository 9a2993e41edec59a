/** The template preview: the index of templates and stories, and the page that
    renders one of them from its path. */
module Preview {
  import opened Text
  import opened Orders
  import opened FileTree

  datatype Story = Story(name: string, file: string)

  datatype TemplateEntry = TemplateEntry(templatePath: string, stories: seq<Story>)

  datatype Item = Item(name: string, isFile: bool)

  /** The fixture directories by path below the fixture root; `None` cannot be listed. */
  type Fixtures = map<string, Option<seq<Item>>>

  // ---- Names ----------------------------------------------------------------------

  /** `Path::file_stem` of a component. */
  function FileStem(name: string): string {
    match RFind(name, '.')
    case Some(k) => if k == 0 then name else name[..k]
    case None => name
  }

  /** `Path::extension` of a component. */
  function Extension(name: string): Option<string> {
    match RFind(name, '.')
    case Some(k) => if k == 0 then None else Some(name[k + 1..])
    case None => None
  }

  lemma TomlName(name: string)
    ensures Extension(name) == Some("toml") <==> exists stem :: stem != [] && name == stem + ".toml"
    ensures Extension(name) == Some("toml") ==> name == FileStem(name) + ".toml" && FileStem(name) != []
  {
    if Extension(name) == Some("toml") {
      var k := RFind(name, '.').value;
      assert name == name[..k] + ".toml";
    }
    forall stem | stem != [] && name == stem + ".toml" ensures Extension(name) == Some("toml") {
      StemOfToml(stem);
    }
  }

  lemma StemOfToml(stem: string)
    requires stem != []
    ensures FileStem(stem + ".toml") == stem && Extension(stem + ".toml") == Some("toml")
  {
    assert (stem + ".toml")[|stem| + 1..] == "toml";
    RFindAt(stem + ".toml", '.', |stem|);
  }

  predicate IsTemplate(path: seq<string>) {
    path != [] && !StartsWith(path[|path| - 1], "_") && EndsWith(path[|path| - 1], ".html")
  }

  function TemplateStem(templatePath: string): string {
    TrimEndMatches(templatePath, ".html")
  }

  /** The fixture directory of a template is its path without the extension. */
  lemma TemplateStemIs(stem: string)
    requires |stem| < 5 || stem[|stem| - 5..] != ".html"
    ensures TemplateStem(stem + ".html") == stem && TemplateStem(stem) == stem
  {
    TrimEndMatchesOnce(stem, ".html");
  }

  /** What a template is called. */
  lemma TemplateNames(path: seq<string>)
    ensures IsTemplate(path) <==>
            && path != []
            && var name := path[|path| - 1];
            && |name| >= 5 && name[|name| - 5..] == ".html" && name[0] != '_'
  {
    if path != [] && path[|path| - 1] != [] {
      var name := path[|path| - 1];
      assert name[..1] == [name[0]];
      assert name[..1] == "_" <==> name[0] == '_';
    }
  }

  /** `default` first, the others by name. */
  predicate NameBefore(a: string, b: string) {
    if a == "default" then b != "default"
    else b != "default" && TextLess(a, b)
  }

  predicate StoryBefore(a: Story, b: Story) {
    NameBefore(a.name, b.name)
  }

  predicate EntryBefore(a: TemplateEntry, b: TemplateEntry) {
    TextLess(a.templatePath, b.templatePath)
  }

  /** The comparator is a strict total order on names. */
  lemma NameOrder(a: string, b: string, c: string)
    ensures !(NameBefore(a, b) && NameBefore(b, a))
    ensures a != b ==> NameBefore(a, b) || NameBefore(b, a)
    ensures NameBefore(a, b) && NameBefore(b, c) ==> NameBefore(a, c)
  {
    TextOrder(a, b, c);
  }

  lemma TextOrder(a: string, b: string, c: string)
    ensures !(TextLess(a, b) && TextLess(b, a))
    ensures a != b ==> TextLess(a, b) || TextLess(b, a)
    ensures TextLess(a, b) && TextLess(b, c) ==> TextLess(a, c)
  {
    TextLessTotal(a, b);
    TextLessIrreflexive(a);
    if TextLess(a, b) && TextLess(b, a) {
      TextLessTransitive(a, b, a);
    }
    if TextLess(a, b) && TextLess(b, c) {
      TextLessTransitive(a, b, c);
    }
  }

  // ---- Stories of one template --------------------------------------------------------

  predicate IsStoryItem(item: Item) {
    item.isFile && Extension(item.name) == Some("toml")
  }

  function StoryOf(dir: string, item: Item): Story {
    Story(FileStem(item.name), dir + "/" + item.name)
  }

  /** The stories of a listing in enumeration order. */
  function Collected(dir: string, items: seq<Item>): (stories: seq<Story>)
    ensures forall s :: s in stories <==>
              exists i | 0 <= i < |items| :: IsStoryItem(items[i]) && s == StoryOf(dir, items[i])
  {
    if items == [] then []
    else
      var n := |items| - 1;
      Collected(dir, items[..n]) + if IsStoryItem(items[n]) then [StoryOf(dir, items[n])] else []
  }

  predicate DistinctItems(items: seq<Item>) {
    forall i, j | 0 <= i < j < |items| :: items[i].name != items[j].name
  }

  /** The stories of a template; a missing directory has none. */
  function Stories(fixturesDir: string, fixtures: Fixtures, templatePath: string): Option<seq<Story>> {
    var stem := TemplateStem(templatePath);
    if stem !in fixtures then Some([])
    else if fixtures[stem].None? then None
    else Some(SortBy(StoryBefore, Collected(fixturesDir + "/" + stem, fixtures[stem].value)))
  }

  method StoriesFor(fixturesDir: string, fixtures: Fixtures, templatePath: string) returns (r: Option<seq<Story>>)
    ensures r == Stories(fixturesDir, fixtures, templatePath)
  {
    var stem := TemplateStem(templatePath);
    if stem !in fixtures {
      return Some([]);
    }
    if fixtures[stem].None? {
      return None;
    }
    var items, dir := fixtures[stem].value, fixturesDir + "/" + stem;
    var stories := [];
    for i := 0 to |items|
      invariant stories == Collected(dir, items[..i])
    {
      assert items[..i + 1][..i] == items[..i];
      var item := items[i];
      if !item.isFile || Extension(item.name) != Some("toml") {
        continue;
      }
      stories := stories + [Story(FileStem(item.name), dir + "/" + item.name)];
    }
    assert items[..|items|] == items;
    r := Some(SortBy(StoryBefore, stories));
  }

  lemma CollectedDistinct(dir: string, items: seq<Item>)
    requires DistinctItems(items)
    ensures forall i, j | 0 <= i < j < |Collected(dir, items)| ::
              Collected(dir, items)[i].name != Collected(dir, items)[j].name
  {
    if items == [] {
    } else {
      var n := |items| - 1;
      CollectedDistinct(dir, items[..n]);
      if IsStoryItem(items[n]) {
        var before := Collected(dir, items[..n]);
        forall i | 0 <= i < |before| ensures before[i].name != FileStem(items[n].name) {
          assert before[i] in before;
          var k :| 0 <= k < n && IsStoryItem(items[..n][k]) && before[i] == StoryOf(dir, items[..n][k]);
          TomlName(items[k].name);
          TomlName(items[n].name);
        }
      }
    }
  }

  lemma StoriesTotal(s: seq<Story>)
    requires forall i, j | 0 <= i < j < |s| :: s[i].name != s[j].name
    ensures StrictTotalOn(StoryBefore, s)
  {
    forall x: Story, y: Story, z: Story
      ensures !(StoryBefore(x, y) && StoryBefore(y, x))
      ensures x.name != y.name ==> StoryBefore(x, y) || StoryBefore(y, x)
      ensures StoryBefore(x, y) && StoryBefore(y, z) ==> StoryBefore(x, z)
    {
      NameOrder(x.name, y.name, z.name);
    }
  }

  /** What a listed story is, and the order the stories come in. */
  lemma StoriesAre(dir: string, items: seq<Item>)
    requires DistinctItems(items)
    ensures var out := SortBy(StoryBefore, Collected(dir, items));
            && Sorted(StoryBefore, out)
            && StrictTotalOn(StoryBefore, Collected(dir, items))
            && forall s :: s in out <==>
                 exists i | 0 <= i < |items| :: IsStoryItem(items[i]) && s == StoryOf(dir, items[i])
  {
    CollectedDistinct(dir, items);
    StoriesTotal(Collected(dir, items));
    SortBySorts(StoryBefore, Collected(dir, items));
  }

  /** The stories in full: a file `name.toml` of the directory is the story `name`, other
      items are none, `default` comes first and the others by name. */
  lemma {:induction false} StoriesInFull(fixturesDir: string, fixtures: Fixtures, stem: string)
    requires |stem| < 5 || stem[|stem| - 5..] != ".html"
    requires stem in fixtures && fixtures[stem].Some? ==> DistinctItems(fixtures[stem].value)
    ensures var stories := Stories(fixturesDir, fixtures, stem + ".html");
            && (stem !in fixtures ==> stories == Some([]))
            && (stories == None <==> stem in fixtures && fixtures[stem] == None)
            && (stem in fixtures && stories.Some? ==>
                  && DefaultThenByName(stories.value)
                  && forall name, file :: Story(name, file) in stories.value <==>
                       && name != "" && Item(name + ".toml", true) in fixtures[stem].value
                       && file == fixturesDir + "/" + stem + "/" + name + ".toml")
  {
    hide SortBy, Collected, TextLess, TrimEndMatches, DefaultThenByName;
    TemplateStemIs(stem);
    if stem in fixtures && fixtures[stem].Some? {
      var items, dir := fixtures[stem].value, fixturesDir + "/" + stem;
      StoriesAre(dir, items);
      var out := SortBy(StoryBefore, Collected(dir, items));
      SortedByName(out);
      forall name, file
        ensures Story(name, file) in out <==>
                  name != "" && Item(name + ".toml", true) in items && file == dir + "/" + name + ".toml"
      {
        IsStoryIff(dir, items, name, file);
      }
    }
  }

  ghost predicate DefaultThenByName(stories: seq<Story>) {
    forall i, j | 0 <= i < j < |stories| ::
      && stories[j].name != "default"
      && (stories[i].name == "default" || TextLess(stories[i].name, stories[j].name))
  }

  lemma {:induction false} SortedByName(stories: seq<Story>)
    requires Sorted(StoryBefore, stories)
    ensures DefaultThenByName(stories)
  {
    hide TextLess;
    forall i, j | 0 <= i < j < |stories|
      ensures && stories[j].name != "default"
              && (stories[i].name == "default" || TextLess(stories[i].name, stories[j].name))
    {
      assert StoryBefore(stories[i], stories[j]);
    }
  }

  lemma {:induction false} IsStoryIff(dir: string, items: seq<Item>, name: string, file: string)
    ensures (exists i | 0 <= i < |items| :: IsStoryItem(items[i]) && Story(name, file) == StoryOf(dir, items[i])) <==>
            name != "" && Item(name + ".toml", true) in items && file == dir + "/" + name + ".toml"
  {
    hide RFind, FileStem, Extension;
    assert dir + "/" + (name + ".toml") == dir + "/" + name + ".toml";
    if i: nat :| i < |items| && IsStoryItem(items[i]) && Story(name, file) == StoryOf(dir, items[i]) {
      TomlName(items[i].name);
      assert items[i] == Item(name + ".toml", true);
    }
    if name != "" && Item(name + ".toml", true) in items && file == dir + "/" + name + ".toml" {
      StemOfToml(name);
      var i :| 0 <= i < |items| && items[i] == Item(name + ".toml", true);
      assert IsStoryItem(items[i]) && Story(name, file) == StoryOf(dir, items[i]);
    }
  }

  /** `default` leads whenever it is there. */
  lemma DefaultComesFirst(dir: string, items: seq<Item>, item: Item)
    requires DistinctItems(items) && item in items && item.isFile && item.name == "default" + ".toml"
    ensures var out := SortBy(StoryBefore, Collected(dir, items));
            out != [] && out[0] == StoryOf(dir, item) && out[0].name == "default"
  {
    hide SortBy, Collected, TextLess, FileStem, Extension;
    StoriesAre(dir, items);
    StemOfToml("default");
    var out := SortBy(StoryBefore, Collected(dir, items));
    assert StoryOf(dir, item) in out;
    var k :| 0 <= k < |out| && out[k] == StoryOf(dir, item);
    assert k > 0 ==> StoryBefore(out[0], out[k]);
  }

  /** The order a directory enumerates in does not show. */
  lemma StoriesIgnoreOrder(dir: string, a: seq<Item>, b: seq<Item>)
    requires DistinctItems(a) && DistinctItems(b) && SameElements(a, b)
    ensures SortBy(StoryBefore, Collected(dir, a)) == SortBy(StoryBefore, Collected(dir, b))
  {
    StoriesAre(dir, a);
    StoriesAre(dir, b);
    var x, y := SortBy(StoryBefore, Collected(dir, a)), SortBy(StoryBefore, Collected(dir, b));
    forall s ensures s in x <==> s in y {
      if s in x {
        var i :| 0 <= i < |a| && IsStoryItem(a[i]) && s == StoryOf(dir, a[i]);
        assert a[i] in b;
      }
      if s in y {
        var i :| 0 <= i < |b| && IsStoryItem(b[i]) && s == StoryOf(dir, b[i]);
        assert b[i] in a;
      }
    }
    SortBySorts(StoryBefore, Collected(dir, a));
    SortedIsUnique(StoryBefore, x, y);
  }

  // ---- The index -------------------------------------------------------------------------

  /** The entry of one file met on the walk of the template directory. */
  function EntryOf(fixturesDir: string, fixtures: Fixtures, path: seq<string>): Option<TemplateEntry> {
    var templatePath := LogicalPath(path);
    var stories := Stories(fixturesDir, fixtures, templatePath);
    if stories.None? then None else Some(TemplateEntry(templatePath, stories.value))
  }

  /** `out` with the entries of a walk pushed to it; `None` as soon as a fixture
      directory cannot be listed. */
  function Walked(fixturesDir: string, fixtures: Fixtures, found: seq<Found>, out: seq<TemplateEntry>)
    : Option<seq<TemplateEntry>>
  {
    if found == [] then Some(out)
    else if !IsTemplate(found[0].path) then Walked(fixturesDir, fixtures, found[1..], out)
    else
      var e := EntryOf(fixturesDir, fixtures, found[0].path);
      if e.None? then None else Walked(fixturesDir, fixtures, found[1..], out + [e.value])
  }

  lemma {:induction false} WalkedAppend(
    fixturesDir: string, fixtures: Fixtures, a: seq<Found>, b: seq<Found>, out: seq<TemplateEntry>)
    ensures var wa := Walked(fixturesDir, fixtures, a, out);
            Walked(fixturesDir, fixtures, a + b, out)
            == if wa.None? then None else Walked(fixturesDir, fixtures, b, wa.value)
  {
    if a == [] {
      assert a + b == b;
    } else {
      assert (a + b)[1..] == a[1..] + b;
      var e := EntryOf(fixturesDir, fixtures, a[0].path);
      WalkedAppend(fixturesDir, fixtures, a[1..], b, if IsTemplate(a[0].path) && e.Some? then out + [e.value] else out);
    }
  }

  lemma {:induction false} StepInto(
    fixturesDir: string, fixtures: Fixtures, entries: seq<Entry>, above: seq<string>, out: seq<TemplateEntry>)
    requires entries != []
    ensures var node, path := entries[0].node, above + [entries[0].name];
            var w := Walked(fixturesDir, fixtures, NodeFiles(node, path), out);
            && (Readable(entries) <==> NodeReadable(node) && Readable(entries[1..]))
            && Walked(fixturesDir, fixtures, Files(entries, above), out)
               == if w.None? then None else Walked(fixturesDir, fixtures, Files(entries[1..], above), w.value)
  {
    WalkedAppend(fixturesDir, fixtures, NodeFiles(entries[0].node, above + [entries[0].name]),
                 Files(entries[1..], above), out);
  }

  class TemplateWalk {
    const fixturesDir: string
    const fixtures: Fixtures
    var out: seq<TemplateEntry>

    constructor (fixturesDir: string, fixtures: Fixtures)
      ensures this.fixturesDir == fixturesDir && this.fixtures == fixtures && out == []
    {
      this.fixturesDir := fixturesDir;
      this.fixtures := fixtures;
      out := [];
    }

    method WalkTemplates(entries: seq<Entry>, above: seq<string>) returns (ok: bool)
      modifies this
      ensures var w := Walked(fixturesDir, fixtures, Files(entries, above), old(out));
              && (ok <==> Readable(entries) && w.Some?)
              && (ok ==> out == w.value)
      decreases entries
    {
      var i := 0;
      while i < |entries|
        invariant 0 <= i <= |entries|
        invariant Readable(entries) <==> Readable(entries[i..])
        invariant Walked(fixturesDir, fixtures, Files(entries, above), old(out))
               == Walked(fixturesDir, fixtures, Files(entries[i..], above), out)
      {
        var e := entries[i];
        var path := above + [e.name];
        StepInto(fixturesDir, fixtures, entries[i..], above, out);
        assert entries[i..][1..] == entries[i + 1..];
        i := i + 1;
        match e.node
        case BrokenDir =>
          return false;
        case Dir(inner) =>
          var inside := WalkTemplates(inner, path);
          if !inside {
            return false;
          }
        case _ =>
          if !StartsWith(e.name, "_") && EndsWith(e.name, ".html") {
            var templatePath := LogicalPath(path);
            var stories := StoriesFor(fixturesDir, fixtures, templatePath);
            if stories.None? {
              return false;
            }
            out := out + [TemplateEntry(templatePath, stories.value)];
          }
      }
      ok := true;
    }
  }

  /** The index that `discover` returns, or nothing when a directory cannot be read. */
  function Index(fixturesDir: string, fixtures: Fixtures, entries: seq<Entry>): Option<seq<TemplateEntry>> {
    var walked := Walked(fixturesDir, fixtures, Files(entries, []), []);
    if !Readable(entries) || walked.None? then None else Some(SortBy(EntryBefore, walked.value))
  }

  method Discover(fixturesDir: string, fixtures: Fixtures, entries: seq<Entry>) returns (r: Option<seq<TemplateEntry>>)
    ensures r == Index(fixturesDir, fixtures, entries)
  {
    var walk := new TemplateWalk(fixturesDir, fixtures);
    var ok := walk.WalkTemplates(entries, []);
    r := if ok then Some(SortBy(EntryBefore, walk.out)) else None;
  }

  /** A template of the tree, with its stories. */
  ghost predicate IsEntry(
    fixturesDir: string, fixtures: Fixtures, entries: seq<Entry>, e: TemplateEntry, path: seq<string>)
  {
    && IsTemplate(path) && e.templatePath == JoinPath(path)
    && (exists content :: Lookup(entries, path) == Some(FileNode(content)))
    && Stories(fixturesDir, fixtures, e.templatePath) == Some(e.stories)
  }

  ghost predicate FoundIn(entries: seq<Entry>, found: seq<Found>) {
    forall f | f in found :: AreComponents(f.path) && Lookup(entries, f.path) == Some(FileNode(f.content))
  }

  lemma {:induction false} FilesAreFound(entries: seq<Entry>)
    requires WellFormed(entries)
    ensures FoundIn(entries, Files(entries, []))
  {
    forall f | f in Files(entries, [])
      ensures AreComponents(f.path) && Lookup(entries, f.path) == Some(FileNode(f.content))
    {
      FilesAreLookups(entries, [], f);
      assert f.path[0..] == f.path;
      LookupComponents(entries, f.path);
    }
  }

  /** The paths of a walk are distinct. */
  ghost predicate DistinctPaths(found: seq<Found>) {
    forall i, j | 0 <= i < j < |found| :: found[i].path != found[j].path
  }

  lemma {:induction false} FilesAreDistinct(entries: seq<Entry>, above: seq<string>)
    requires WellFormed(entries)
    ensures DistinctPaths(Files(entries, above))
    decreases entries
  {
    if entries == [] {
    } else {
      var node, path := entries[0].node, above + [entries[0].name];
      var head, tail := NodeFiles(node, path), Files(entries[1..], above);
      FilesAreDistinct(entries[1..], above);
      if node.Dir? {
        FilesAreDistinct(node.entries, path);
      }
      forall f, g | f in head && g in tail ensures f.path != g.path {
        NodeFilesAreLookups(node, path, f);
        FilesAreLookups(entries[1..], above, g);
        if f.path == g.path {
          LookupSplits(entries, f.path[|above|..]);
        }
      }
      DistinctAppend(head, tail);
    }
  }

  lemma DistinctAppend(a: seq<Found>, b: seq<Found>)
    requires DistinctPaths(a) && DistinctPaths(b)
    requires forall f, g | f in a && g in b :: f.path != g.path
    ensures DistinctPaths(a + b)
  {
    var c := a + b;
    forall i, j | 0 <= i < j < |c| ensures c[i].path != c[j].path {
      if i < |a| <= j {
        assert c[i] in a && c[j] in b;
      }
    }
  }

  predicate DistinctEntries(out: seq<TemplateEntry>) {
    forall i, j | 0 <= i < j < |out| :: out[i].templatePath != out[j].templatePath
  }

  /** What a walk pushes: the templates among the files met, each once. */
  lemma {:induction false} WalkedEntries(
    fixturesDir: string, fixtures: Fixtures, entries: seq<Entry>, found: seq<Found>, out: seq<TemplateEntry>)
    requires FoundIn(entries, found) && DistinctPaths(found) && DistinctEntries(out)
    requires forall f, e | f in found && e in out :: JoinPath(f.path) != e.templatePath
    requires Walked(fixturesDir, fixtures, found, out).Some?
    ensures var w := Walked(fixturesDir, fixtures, found, out).value;
            && DistinctEntries(w)
            && forall e :: e in w <==>
                 e in out || exists f | f in found :: IsEntry(fixturesDir, fixtures, entries, e, f.path)
    decreases |found|
  {
    if found == [] {
    } else {
      var head, rest := found[0], found[1..];
      assert found == [head] + rest;
      assert head in found && Lookup(entries, head.path) == Some(FileNode(head.content));
      LogicalPathOfComponents(head.path);
      forall f | f in rest ensures f in found && JoinPath(f.path) != JoinPath(head.path) {
        if JoinPath(f.path) == JoinPath(head.path) {
          JoinPathInjective(f.path, head.path);
        }
      }
      var e := EntryOf(fixturesDir, fixtures, head.path);
      var out' := if IsTemplate(head.path) then out + [e.value] else out;
      WalkedEntries(fixturesDir, fixtures, entries, rest, out');
      var w := Walked(fixturesDir, fixtures, found, out).value;
      hide IsTemplate, Stories, JoinPath, Lookup;
      forall x
        ensures x in w <==> x in out || exists f | f in found :: IsEntry(fixturesDir, fixtures, entries, x, f.path)
      {
        assert IsEntry(fixturesDir, fixtures, entries, x, head.path) <==> IsTemplate(head.path) && x == e.value;
      }
    }
  }

  /** The index holds exactly the templates of the tree, by path. */
  lemma {:induction false} IndexIs(fixturesDir: string, fixtures: Fixtures, entries: seq<Entry>)
    requires WellFormed(entries) && Index(fixturesDir, fixtures, entries).Some?
    ensures var index := Index(fixturesDir, fixtures, entries).value;
            && Sorted(EntryBefore, index) && Asymmetric(EntryBefore, index)
            && (forall i, j | 0 <= i < j < |index| :: TextLess(index[i].templatePath, index[j].templatePath))
            && forall e :: e in index <==> exists path :: IsEntry(fixturesDir, fixtures, entries, e, path)
  {
    var found := Files(entries, []);
    FilesAreFound(entries);
    FilesAreDistinct(entries, []);
    WalkedEntries(fixturesDir, fixtures, entries, found, []);
    var walked := Walked(fixturesDir, fixtures, found, []).value;
    EntriesTotal(walked);
    SortBySorts(EntryBefore, walked);
    forall e, path | IsEntry(fixturesDir, fixtures, entries, e, path)
      ensures exists f | f in found :: IsEntry(fixturesDir, fixtures, entries, e, f.path)
    {
      var content :| Lookup(entries, path) == Some(FileNode(content));
      FilesAreLookups(entries, [], Found(path, content));
      assert path[0..] == path;
      assert Found(path, content) in found;
    }
  }

  lemma EntriesTotal(out: seq<TemplateEntry>)
    requires DistinctEntries(out)
    ensures StrictTotalOn(EntryBefore, out)
  {
    forall x: TemplateEntry, y: TemplateEntry, z: TemplateEntry
      ensures !(EntryBefore(x, y) && EntryBefore(y, x))
      ensures x.templatePath != y.templatePath ==> EntryBefore(x, y) || EntryBefore(y, x)
      ensures EntryBefore(x, y) && EntryBefore(y, z) ==> EntryBefore(x, z)
    {
      TextOrder(x.templatePath, y.templatePath, z.templatePath);
    }
  }

  /** The same fixtures, whatever order their directories list them in. */
  ghost predicate SameFixtures(a: Fixtures, b: Fixtures) {
    && a.Keys == b.Keys
    && forall dir | dir in a ::
         && (a[dir].None? <==> b[dir].None?)
         && (a[dir].Some? ==> SameElements(a[dir].value, b[dir].value))
  }

  ghost predicate DistinctFixtures(fixtures: Fixtures) {
    forall dir | dir in fixtures && fixtures[dir].Some? :: DistinctItems(fixtures[dir].value)
  }

  lemma StoriesOfSameFixtures(fixturesDir: string, fa: Fixtures, fb: Fixtures, templatePath: string)
    requires DistinctFixtures(fa) && DistinctFixtures(fb) && SameFixtures(fa, fb)
    ensures Stories(fixturesDir, fa, templatePath) == Stories(fixturesDir, fb, templatePath)
  {
    var stem := TemplateStem(templatePath);
    if stem in fa && fa[stem].Some? {
      StoriesIgnoreOrder(fixturesDir + "/" + stem, fa[stem].value, fb[stem].value);
    }
  }

  /** Exactly when every fixture directory that the walk needs can be listed. */
  lemma {:induction false} WalkedIff(
    fixturesDir: string, fixtures: Fixtures, found: seq<Found>, out: seq<TemplateEntry>)
    ensures Walked(fixturesDir, fixtures, found, out).Some?
            <==> forall f | f in found && IsTemplate(f.path) :: EntryOf(fixturesDir, fixtures, f.path).Some?
  {
    hide IsTemplate, EntryOf;
    if found == [] {
    } else {
      var e := EntryOf(fixturesDir, fixtures, found[0].path);
      assert found[0] in found && forall f :: f in found <==> f == found[0] || f in found[1..];
      var out' := if IsTemplate(found[0].path) && e.Some? then out + [e.value] else out;
      WalkedIff(fixturesDir, fixtures, found[1..], out');
    }
  }

  /** Exactly when there is an index: no path leads to a directory that cannot be opened,
      and the fixture directory of every template is missing or can be listed. */
  lemma {:induction false} IndexedIff(fixturesDir: string, fixtures: Fixtures, entries: seq<Entry>)
    requires WellFormed(entries)
    ensures Index(fixturesDir, fixtures, entries).Some? <==>
            && (forall path :: Lookup(entries, path) != Some(BrokenDir))
            && (forall path, content | IsTemplate(path) && Lookup(entries, path) == Some(FileNode(content)) ::
                  var stem := TemplateStem(JoinPath(path));
                  stem in fixtures ==> fixtures[stem].Some?)
  {
    hide WellFormed, Files, Readable, IsTemplate, Walked, SortBy, Lookup, TrimEndMatches, JoinPath, Collected;
    ReadableIffNoBrokenDir(entries);
    WalkedIff(fixturesDir, fixtures, Files(entries, []), []);
    forall path, content
      ensures Found(path, content) in Files(entries, []) <==>
                path != [] && Lookup(entries, path) == Some(FileNode(content))
      ensures Found(path, content) in Files(entries, []) ==> LogicalPath(path) == JoinPath(path)
    {
      FilesAreLookups(entries, [], Found(path, content));
      assert path[0..] == path;
      if Lookup(entries, path).Some? {
        LookupComponents(entries, path);
        LogicalPathOfComponents(path);
      }
    }
    forall f | f in Files(entries, []) ensures f == Found(f.path, f.content) {
    }
    assert forall path | IsTemplate(path) :: path != [] by {
      forall path | IsTemplate(path) ensures path != [] {
        TemplateNames(path);
      }
    }
  }

  /** Whether there is an index does not depend on the order. */
  lemma {:induction false} IndexedReordered(
    fixturesDir: string, fa: Fixtures, fb: Fixtures, a: seq<Entry>, b: seq<Entry>)
    requires WellFormed(a) && WellFormed(b) && Reordered(a, b)
    requires DistinctFixtures(fa) && DistinctFixtures(fb) && SameFixtures(fa, fb)
    ensures Index(fixturesDir, fa, a).Some? <==> Index(fixturesDir, fb, b).Some?
  {
    hide Reordered, WellFormed, Files, Readable, IsTemplate, DistinctFixtures, SameFixtures, Stories, Walked, SortBy;
    ReadableReordered(a, b);
    WalkedIff(fixturesDir, fa, Files(a, []), []);
    WalkedIff(fixturesDir, fb, Files(b, []), []);
    forall f
      ensures f in Files(a, []) <==> f in Files(b, [])
      ensures EntryOf(fixturesDir, fa, f.path).Some? <==> EntryOf(fixturesDir, fb, f.path).Some?
    {
      FilesReordered(a, b, f);
      StoriesOfSameFixtures(fixturesDir, fa, fb, LogicalPath(f.path));
    }
  }

  lemma {:induction false} EntryReordered(
    fixturesDir: string, fa: Fixtures, fb: Fixtures, a: seq<Entry>, b: seq<Entry>, e: TemplateEntry, path: seq<string>)
    requires WellFormed(a) && WellFormed(b) && Reordered(a, b)
    requires DistinctFixtures(fa) && DistinctFixtures(fb) && SameFixtures(fa, fb)
    ensures IsEntry(fixturesDir, fa, a, e, path) <==> IsEntry(fixturesDir, fb, b, e, path)
  {
    hide Reordered, WellFormed, IsTemplate, DistinctFixtures, SameFixtures, Stories, Lookup, JoinPath;
    LookupReordered(a, b, path);
    StoriesOfSameFixtures(fixturesDir, fa, fb, e.templatePath);
  }

  /** The order in which directories enumerate never shows: neither in whether there is
      an index, nor in the index. */
  lemma {:induction false} IndexIgnoresOrder(
    fixturesDir: string, fa: Fixtures, fb: Fixtures, a: seq<Entry>, b: seq<Entry>)
    requires WellFormed(a) && WellFormed(b) && Reordered(a, b)
    requires DistinctFixtures(fa) && DistinctFixtures(fb) && SameFixtures(fa, fb)
    ensures Index(fixturesDir, fa, a) == Index(fixturesDir, fb, b)
  {
    hide Index, IsEntry, WellFormed, Reordered, DistinctFixtures, SameFixtures;
    IndexedReordered(fixturesDir, fa, fb, a, b);
    if Index(fixturesDir, fa, a).Some? {
      IndexIs(fixturesDir, fa, a);
      IndexIs(fixturesDir, fb, b);
      forall e, path ensures IsEntry(fixturesDir, fa, a, e, path) <==> IsEntry(fixturesDir, fb, b, e, path) {
        EntryReordered(fixturesDir, fa, fb, a, b, e, path);
      }
      SortedIsUnique(EntryBefore, Index(fixturesDir, fa, a).value, Index(fixturesDir, fb, b).value);
    }
  }

  // ---- Rendering one story ------------------------------------------------------------------

  datatype Target = Target(template: string, story: string)

  /** Splits at the last `/`. */
  function SplitLastSegment(path: string): Option<Target> {
    match RFind(path, '/')
    case Some(k) => Some(Target(path[..k], path[k + 1..]))
    case None => None
  }

  function FixtureFile(fixturesDir: string, templatePath: string, story: string): string {
    fixturesDir + "/" + TemplateStem(templatePath) + "/" + (story + ".toml")
  }

  /** The fixture file that `render` loads for a request path; `None` is the 404. */
  function FixtureFor(fixturesDir: string, fixtures: Fixtures, entries: seq<Entry>, path: string): Option<string> {
    var target := SplitLastSegment(path);
    if target.None? then None
    else
      var Target(template, story) := target.value;
      var node := Lookup(entries, Split(template, '/'));
      var stem := TemplateStem(template);
      if node.None? || node.value.Dir? || node.value.BrokenDir? then None
      else if stem !in fixtures || fixtures[stem].None? then None
      else if exists i | 0 <= i < |fixtures[stem].value| :: fixtures[stem].value[i].name == story + ".toml" then
        Some(FixtureFile(fixturesDir, template, story))
      else None
  }

  /** The file that a story's page loads, in full: `story.toml` in the directory that has
      the template's path without the extension. */
  lemma {:induction false} FixturePath(
    fixturesDir: string, fixtures: Fixtures, entries: seq<Entry>, stem: string, story: string)
    requires |stem| < 5 || stem[|stem| - 5..] != ".html"
    requires '/' !in story
    requires FixtureFor(fixturesDir, fixtures, entries, stem + ".html/" + story).Some?
    ensures FixtureFor(fixturesDir, fixtures, entries, stem + ".html/" + story)
            == Some(fixturesDir + "/" + stem + "/" + story + ".toml")
    ensures stem in fixtures && fixtures[stem].Some?
    ensures exists item | item in fixtures[stem].value :: item.name == story + ".toml"
  {
    hide TrimEndMatches, RFind, Split, SplitLastSegment;
    TemplateStemIs(stem);
    assert stem + ".html/" + story == stem + ".html" + "/" + story;
    SplitsAgain(stem + ".html", story);
    assert fixturesDir + "/" + stem + "/" + (story + ".toml") == fixturesDir + "/" + stem + "/" + story + ".toml";
  }

  /** Names in fixture directories are distinct path components. */
  ghost predicate FixtureNames(fixtures: Fixtures) {
    forall dir | dir in fixtures && fixtures[dir].Some? ::
      && DistinctItems(fixtures[dir].value)
      && forall i | 0 <= i < |fixtures[dir].value| :: IsComponent(fixtures[dir].value[i].name)
  }

  /** A listed story is a file of the template's fixture directory. */
  lemma {:induction false} StoryHasFixture(
    fixturesDir: string, fixtures: Fixtures, templatePath: string, stories: seq<Story>, s: Story)
    requires FixtureNames(fixtures)
    requires Stories(fixturesDir, fixtures, templatePath) == Some(stories) && s in stories
    ensures var stem := TemplateStem(templatePath);
            && stem in fixtures && fixtures[stem].Some?
            && exists i | 0 <= i < |fixtures[stem].value| :: fixtures[stem].value[i].name == s.name + ".toml"
    ensures '/' !in s.name && s.file == FixtureFile(fixturesDir, templatePath, s.name)
  {
    hide SortBy, Collected, TrimEndMatches, RFind;
    var stem := TemplateStem(templatePath);
    var items, dir := fixtures[stem].value, fixturesDir + "/" + stem;
    StoriesAre(dir, items);
    var i :| 0 <= i < |items| && IsStoryItem(items[i]) && s == StoryOf(dir, items[i]);
    TomlName(items[i].name);
    assert s.name == items[i].name[..|s.name|];
  }

  /** Listing and lookup agree: the path made of a listed template and story is split
      back into them, and the page loads the very file the index names. */
  lemma {:induction false} ListedStoriesRender(
    fixturesDir: string, fixtures: Fixtures, entries: seq<Entry>, e: TemplateEntry, s: Story)
    requires WellFormed(entries) && FixtureNames(fixtures) && Index(fixturesDir, fixtures, entries).Some?
    requires e in Index(fixturesDir, fixtures, entries).value && s in e.stories
    ensures SplitLastSegment(e.templatePath + "/" + s.name) == Some(Target(e.templatePath, s.name))
    ensures FixtureFor(fixturesDir, fixtures, entries, e.templatePath + "/" + s.name) == Some(s.file)
  {
    hide Index, Stories, TemplateStem, FixtureFile, SplitLastSegment, Split, JoinPath;
    IndexIs(fixturesDir, fixtures, entries);
    var path :| IsEntry(fixturesDir, fixtures, entries, e, path);
    LookupComponents(entries, path);
    JoinPathSplit(path);
    StoryHasFixture(fixturesDir, fixtures, e.templatePath, e.stories, s);
    SplitsAgain(e.templatePath, s.name);
  }

  lemma SplitsAgain(template: string, story: string)
    requires '/' !in story
    ensures SplitLastSegment(template + "/" + story) == Some(Target(template, story))
  {
    var path := template + "/" + story;
    assert path[|template| + 1..] == story && path[..|template|] == template;
    RFindAt(path, '/', |template|);
  }

  ghost predicate IsListed(
    fixturesDir: string, fixtures: Fixtures, entries: seq<Entry>, template: string, story: string)
  {
    exists e, s ::
      && Index(fixturesDir, fixtures, entries).Some? && e in Index(fixturesDir, fixtures, entries).value
      && s in e.stories && e.templatePath == template && s.name == story
  }

  predicate HasItem(fixtures: Fixtures, stem: string, item: Item) {
    stem in fixtures && fixtures[stem].Some? && item in fixtures[stem].value
  }

  /** Exactly when a page is not a 404: its path is that of a file, a slash and a story
      that the fixture directory of that file has an item for. */
  lemma {:induction false} PageIff(
    fixturesDir: string, fixtures: Fixtures, entries: seq<Entry>, template: string, story: string)
    requires '/' !in story
    ensures FixtureFor(fixturesDir, fixtures, entries, template + "/" + story).Some? <==>
            && (exists content :: Lookup(entries, Split(template, '/')) == Some(FileNode(content)))
            && exists item :: HasItem(fixtures, TemplateStem(template), item) && item.name == story + ".toml"
    ensures FixtureFor(fixturesDir, fixtures, entries, story) == None
  {
    hide TrimEndMatches, Split, SplitLastSegment, Lookup;
    SplitsAgain(template, story);
    NoSegment(story);
    IsFileIff(Lookup(entries, Split(template, '/')));
    var stem := TemplateStem(template);
    if stem in fixtures && fixtures[stem].Some? {
      var items := fixtures[stem].value;
      if i: nat :| i < |items| && items[i].name == story + ".toml" {
        assert HasItem(fixtures, stem, items[i]);
      }
    }
  }

  lemma IsFileIff(node: Option<Node>)
    ensures (exists content :: node == Some(FileNode(content)))
            <==> node.Some? && !node.value.Dir? && !node.value.BrokenDir?
  {
    if node.Some? && node.value.File? {
      assert node == Some(FileNode(Some(node.value.content)));
    } else if node.Some? && node.value.BrokenFile? {
      assert node == Some(FileNode(None));
    }
  }

  lemma NoSegment(path: string)
    requires '/' !in path
    ensures SplitLastSegment(path) == None
  {
  }

  /** What the index leaves out although the page finds it: every fixture of a file that
      is no template, a fixture without a stem, and a directory named like a fixture. */
  predicate IsUnlisted(path: seq<string>, story: string, item: Item) {
    item.name == story + ".toml" && (!IsTemplate(path) || story == "" || !item.isFile)
  }

  /** Both ways, for every file of the tree and every story: its page finds a fixture
      exactly when the story is listed or the fixture is one that the index leaves out. */
  lemma {:induction false} ListedIffRendered(
    fixturesDir: string, fixtures: Fixtures, entries: seq<Entry>, path: seq<string>, story: string)
    requires WellFormed(entries) && DistinctFixtures(fixtures) && Index(fixturesDir, fixtures, entries).Some?
    requires exists content :: Lookup(entries, path) == Some(FileNode(content))
    requires '/' !in story
    ensures FixtureFor(fixturesDir, fixtures, entries, JoinPath(path) + "/" + story).Some?
            <==> || IsListed(fixturesDir, fixtures, entries, JoinPath(path), story)
                 || exists item ::
                      HasItem(fixtures, TemplateStem(JoinPath(path)), item) && IsUnlisted(path, story, item)
  {
    hide WellFormed, DistinctFixtures, Index, IsListed, FixtureFor, IsTemplate, Lookup, HasItem, TemplateStem, JoinPath;
    FoundIffItem(fixturesDir, fixtures, entries, path, story);
    if IsTemplate(path) {
      ListedIffFile(fixturesDir, fixtures, entries, path, story);
    } else if IsListed(fixturesDir, fixtures, entries, JoinPath(path), story) {
      OnlyTemplatesListed(fixturesDir, fixtures, entries, path, story);
    }
  }

  /** For a file of the tree, exactly when the directory has an item of that name. */
  lemma {:induction false} FoundIffItem(
    fixturesDir: string, fixtures: Fixtures, entries: seq<Entry>, path: seq<string>, story: string)
    requires WellFormed(entries) && '/' !in story
    requires exists content :: Lookup(entries, path) == Some(FileNode(content))
    ensures FixtureFor(fixturesDir, fixtures, entries, JoinPath(path) + "/" + story).Some?
            <==> exists item :: HasItem(fixtures, TemplateStem(JoinPath(path)), item) && item.name == story + ".toml"
  {
    hide TrimEndMatches, FixtureFor, Split, JoinPath, HasItem;
    LookupComponents(entries, path);
    JoinPathSplit(path);
    assert path != [] by {
      LookupNothing(entries);
    }
    PageIff(fixturesDir, fixtures, entries, JoinPath(path), story);
  }

  lemma LookupNothing(entries: seq<Entry>)
    ensures Lookup(entries, []) == None
  {
  }

  lemma {:induction false} OnlyTemplatesListed(
    fixturesDir: string, fixtures: Fixtures, entries: seq<Entry>, path: seq<string>, story: string)
    requires WellFormed(entries) && Index(fixturesDir, fixtures, entries).Some?
    requires Lookup(entries, path).Some? && IsListed(fixturesDir, fixtures, entries, JoinPath(path), story)
    ensures IsTemplate(path)
  {
    hide Index, IsTemplate, JoinPath, Stories, Lookup;
    IndexIs(fixturesDir, fixtures, entries);
    var e, s :| e in Index(fixturesDir, fixtures, entries).value && s in e.stories
      && e.templatePath == JoinPath(path) && s.name == story;
    var p :| IsEntry(fixturesDir, fixtures, entries, e, p);
    LookupComponents(entries, p);
    LookupComponents(entries, path);
    JoinPathInjective(p, path);
  }

  lemma {:induction false} StoryListed(dir: string, items: seq<Item>, story: string)
    requires DistinctItems(items)
    ensures (exists s | s in SortBy(StoryBefore, Collected(dir, items)) :: s.name == story)
            <==> story != "" && Item(story + ".toml", true) in items
  {
    hide SortBy, Collected, RFind, FileStem, Extension;
    StoriesAre(dir, items);
    if s :| s in SortBy(StoryBefore, Collected(dir, items)) && s.name == story {
      var i :| 0 <= i < |items| && IsStoryItem(items[i]) && s == StoryOf(dir, items[i]);
      TomlName(items[i].name);
      assert items[i] == Item(story + ".toml", true);
    }
    if story != "" && Item(story + ".toml", true) in items {
      var i :| 0 <= i < |items| && items[i] == Item(story + ".toml", true);
      StemOfToml(story);
      assert IsStoryItem(items[i]);
      assert StoryOf(dir, items[i]) in SortBy(StoryBefore, Collected(dir, items));
    }
  }

  /** A story of a template is listed exactly when it has a stem and a file. */
  lemma {:induction false} ListedIffFile(
    fixturesDir: string, fixtures: Fixtures, entries: seq<Entry>, path: seq<string>, story: string)
    requires WellFormed(entries) && DistinctFixtures(fixtures) && Index(fixturesDir, fixtures, entries).Some?
    requires exists content :: Lookup(entries, path) == Some(FileNode(content))
    requires IsTemplate(path)
    ensures IsListed(fixturesDir, fixtures, entries, JoinPath(path), story)
            <==> story != "" && HasItem(fixtures, TemplateStem(JoinPath(path)), Item(story + ".toml", true))
  {
    hide SortBy, Collected, Walked, Files, TrimEndMatches, RFind, Split, JoinPath, FileStem, Extension, IsStoryItem;
    var template := JoinPath(path);
    var stem := TemplateStem(template);
    IndexIs(fixturesDir, fixtures, entries);
    AllTemplatesHaveStories(fixturesDir, fixtures, entries, path);
    var e := TemplateEntry(template, Stories(fixturesDir, fixtures, template).value);
    assert IsEntry(fixturesDir, fixtures, entries, e, path);
    if stem in fixtures {
      StoryListed(fixturesDir + "/" + stem, fixtures[stem].value, story);
    }
    forall x | x in Index(fixturesDir, fixtures, entries).value && x.templatePath == template
      ensures x == e
    {
      var p :| IsEntry(fixturesDir, fixtures, entries, x, p);
    }
  }

  lemma {:induction false} AllTemplatesHaveStories(
    fixturesDir: string, fixtures: Fixtures, entries: seq<Entry>, path: seq<string>)
    requires WellFormed(entries) && Index(fixturesDir, fixtures, entries).Some?
    requires IsTemplate(path) && exists content :: Lookup(entries, path) == Some(FileNode(content))
    ensures Stories(fixturesDir, fixtures, JoinPath(path)).Some?
  {
    var content :| Lookup(entries, path) == Some(FileNode(content));
    FilesAreLookups(entries, [], Found(path, content));
    assert path[0..] == path;
    LookupComponents(entries, path);
    LogicalPathOfComponents(path);
    WalkedNeedsStories(fixturesDir, fixtures, Files(entries, []), [], Found(path, content));
  }

  lemma {:induction false} WalkedNeedsStories(
    fixturesDir: string, fixtures: Fixtures, found: seq<Found>, out: seq<TemplateEntry>, f: Found)
    requires Walked(fixturesDir, fixtures, found, out).Some? && f in found && IsTemplate(f.path)
    ensures EntryOf(fixturesDir, fixtures, f.path).Some?
  {
    if found[0] != f {
      assert f in found[1..];
      var e := EntryOf(fixturesDir, fixtures, found[0].path);
      var out' := if IsTemplate(found[0].path) then out + [e.value] else out;
      WalkedNeedsStories(fixturesDir, fixtures, found[1..], out', f);
    }
  }
}
