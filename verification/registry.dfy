/** The extension registry: the `extensions` dict of the arranger, the
    Python dict-display rule that turns its written items into the table
    that is actually iterated, and first-match-wins category resolution. */
module Registry {
  import opened Basics
  import opened Text

  /** A dictionary key of the table: a dot followed by a non-empty name
      that contains no further dot. Every key the arranger writes has this
      shape. */
  predicate IsExtension(e: string) {
    |e| >= 2 && e[0] == '.' && forall k :: 1 <= k < |e| ==> e[k] != '.'
  }

  type Extension = e: string | IsExtension(e) witness ".x"

  /** One `extension: folder` item. */
  datatype Rule = Rule(ext: Extension, category: string)

  /** Programming and Scripting Files (arangeme.py lines 9-28). */
  const ScriptItems: seq<Rule> := [
    Rule(".py", "python-code"),
    Rule(".js", "js-code"),
    Rule(".java", "java-code"),
    Rule(".cpp", "cpp-code"),
    Rule(".c", "c-code"),
    Rule(".cs", "csharp-code"),
    Rule(".go", "go-code"),
    Rule(".rb", "ruby-code"),
    Rule(".php", "php-code"),
    Rule(".swift", "swift-code"),
    Rule(".kt", "kotlin-code"),
    Rule(".ts", "typescript-code"),
    Rule(".sh", "shell-scripts"),
    Rule(".pl", "perl-scripts"),
    Rule(".lua", "lua-scripts"),
    Rule(".r", "r-scripts"),
    Rule(".sql", "sql-scripts"),
    Rule(".hs", "haskell-code"),
    Rule(".scala", "scala-code"),
    Rule(".dart", "dart-code")
  ]

  /** Web Development Files (arangeme.py lines 31-44). */
  const WebItems: seq<Rule> := [
    Rule(".html", "html-code"),
    Rule(".css", "css-files"),
    Rule(".scss", "scss-files"),
    Rule(".less", "less-files"),
    Rule(".jsx", "react-jsx"),
    Rule(".tsx", "react-tsx"),
    Rule(".vue", "vue-files"),
    Rule(".svelte", "svelte-files"),
    Rule(".ejs", "ejs-templates"),
    Rule(".pug", "pug-templates"),
    Rule(".json", "json-data"),
    Rule(".xml", "xml-data"),
    Rule(".yaml", "yaml-data"),
    Rule(".yml", "yaml-data")
  ]

  /** Documents (arangeme.py lines 47-60). */
  const DocumentItems: seq<Rule> := [
    Rule(".pdf", "documents"),
    Rule(".doc", "documents"),
    Rule(".docx", "documents"),
    Rule(".xls", "documents"),
    Rule(".xlsx", "documents"),
    Rule(".ppt", "documents"),
    Rule(".pptx", "documents"),
    Rule(".odt", "documents"),
    Rule(".ods", "documents"),
    Rule(".odp", "documents"),
    Rule(".rtf", "documents"),
    Rule(".txt", "text-files"),
    Rule(".md", "markdown-files"),
    Rule(".tex", "latex-files")
  ]

  /** Images (arangeme.py lines 63-74). */
  const ImageItems: seq<Rule> := [
    Rule(".jpg", "images"),
    Rule(".jpeg", "images"),
    Rule(".png", "images"),
    Rule(".gif", "images"),
    Rule(".bmp", "images"),
    Rule(".svg", "vector-images"),
    Rule(".webp", "images"),
    Rule(".tiff", "images"),
    Rule(".ico", "icons"),
    Rule(".psd", "photoshop-files"),
    Rule(".ai", "illustrator-files"),
    Rule(".eps", "vector-images")
  ]

  /** Audio (arangeme.py lines 77-83). */
  const AudioItems: seq<Rule> := [
    Rule(".mp3", "audio"),
    Rule(".wav", "audio"),
    Rule(".ogg", "audio"),
    Rule(".flac", "audio"),
    Rule(".aac", "audio"),
    Rule(".m4a", "audio"),
    Rule(".wma", "audio")
  ]

  /** Videos (arangeme.py lines 86-95). */
  const VideoItems: seq<Rule> := [
    Rule(".mp4", "videos"),
    Rule(".mkv", "videos"),
    Rule(".avi", "videos"),
    Rule(".mov", "videos"),
    Rule(".wmv", "videos"),
    Rule(".flv", "videos"),
    Rule(".webm", "videos"),
    Rule(".mpeg", "videos"),
    Rule(".mpg", "videos"),
    Rule(".3gp", "videos")
  ]

  /** Archives (arangeme.py lines 98-105). */
  const ArchiveItems: seq<Rule> := [
    Rule(".zip", "archives"),
    Rule(".rar", "archives"),
    Rule(".tar", "archives"),
    Rule(".gz", "archives"),
    Rule(".7z", "archives"),
    Rule(".bz2", "archives"),
    Rule(".xz", "archives"),
    Rule(".iso", "disk-images")
  ]

  /** Data and Databases (arangeme.py lines 108-114). */
  const DataItems: seq<Rule> := [
    Rule(".csv", "data"),
    Rule(".json", "data"),
    Rule(".xml", "data"),
    Rule(".db", "databases"),
    Rule(".sqlite", "databases"),
    Rule(".mdb", "databases"),
    Rule(".accdb", "databases")
  ]

  /** Executables and Binaries (arangeme.py lines 117-124). */
  const ExecutableItems: seq<Rule> := [
    Rule(".exe", "executables"),
    Rule(".msi", "installers"),
    Rule(".dmg", "mac-installers"),
    Rule(".pkg", "mac-installers"),
    Rule(".deb", "linux-packages"),
    Rule(".rpm", "linux-packages"),
    Rule(".apk", "android-apps"),
    Rule(".app", "mac-apps")
  ]

  /** Fonts (arangeme.py lines 127-131). */
  const FontItems: seq<Rule> := [
    Rule(".ttf", "fonts"),
    Rule(".otf", "fonts"),
    Rule(".woff", "fonts"),
    Rule(".woff2", "fonts"),
    Rule(".eot", "fonts")
  ]

  /** Virtual Machines and Containers (arangeme.py lines 134-139). */
  const ContainerItems: seq<Rule> := [
    Rule(".ova", "virtual-machines"),
    Rule(".ovf", "virtual-machines"),
    Rule(".vmdk", "virtual-machines"),
    Rule(".vdi", "virtual-machines"),
    Rule(".dockerfile", "docker-files"),
    Rule(".yml", "docker-compose")
  ]

  /** Configuration Files (arangeme.py lines 142-146). */
  const ConfigItems: seq<Rule> := [
    Rule(".ini", "config-files"),
    Rule(".cfg", "config-files"),
    Rule(".conf", "config-files"),
    Rule(".env", "config-files"),
    Rule(".properties", "config-files")
  ]

  /** Miscellaneous (arangeme.py lines 149-156). */
  const MiscItems: seq<Rule> := [
    Rule(".log", "logs"),
    Rule(".bak", "backups"),
    Rule(".tmp", "temporary-files"),
    Rule(".lock", "lock-files"),
    Rule(".pid", "process-id-files"),
    Rule(".gitignore", "git-files"),
    Rule(".gitattributes", "git-files"),
    Rule(".dockerignore", "docker-files")
  ]

  /** The items of the `extensions` dict display, in the order they are
      written, repeated keys included. */
  const Written: seq<Rule> :=
    ScriptItems
    + WebItems
    + DocumentItems
    + ImageItems
    + AudioItems
    + VideoItems
    + ArchiveItems
    + DataItems
    + ExecutableItems
    + FontItems
    + ContainerItems
    + ConfigItems
    + MiscItems

  /** Position of the first rule with key `ext`, or `|t|` when there is none. */
  function FirstPos(t: seq<Rule>, ext: string): (r: nat)
    ensures r <= |t|
    ensures r < |t| ==> t[r].ext == ext
    ensures forall j :: 0 <= j < r ==> t[j].ext != ext
  {
    if t == [] then 0
    else if t[0].ext == ext then 0
    else 1 + FirstPos(t[1..], ext)
  }

  /** The value given to `ext` by the last item that mentions it. */
  function LastValue(t: seq<Rule>, ext: string): Option<string>
  {
    if t == [] then None
    else if t[|t| - 1].ext == ext then Some(t[|t| - 1].category)
    else LastValue(t[..|t| - 1], ext)
  }

  /** No item of `t` has the key `e`. */
  predicate Lacks(t: seq<Rule>, e: string) {
    forall k :: 0 <= k < |t| ==> t[k].ext != e
  }

  /** `LastValue` finds nothing exactly when no item has the key, and
      otherwise the value of an item with the key that no later item
      overrides. */
  lemma LastValueMeans(t: seq<Rule>, ext: string)
    ensures LastValue(t, ext).None? <==> Lacks(t, ext)
    ensures LastValue(t, ext).Some? ==> exists j ::
      && 0 <= j < |t| && t[j].ext == ext && t[j].category == LastValue(t, ext).value
      && forall k :: j < k < |t| ==> t[k].ext != ext
  {
    LastValueNone(t, ext);
    if LastValue(t, ext).Some? {
      LastValueSome(t, ext);
    }
  }

  lemma {:induction false} LastValueNone(t: seq<Rule>, ext: string)
    ensures LastValue(t, ext).None? <==> Lacks(t, ext)
    decreases |t|
  {
    if t != [] {
      var init := t[..|t| - 1];
      LastValueNone(init, ext);
      assert forall j :: 0 <= j < |init| ==> init[j] == t[j];
    }
  }

  lemma {:induction false} LastValueSome(t: seq<Rule>, ext: string)
    requires LastValue(t, ext).Some?
    ensures exists j ::
      && 0 <= j < |t| && t[j].ext == ext && t[j].category == LastValue(t, ext).value
      && forall k :: j < k < |t| ==> t[k].ext != ext
    decreases |t|
  {
    var last := t[|t| - 1];
    if last.ext == ext {
      assert t[|t| - 1].ext == ext && t[|t| - 1].category == LastValue(t, ext).value;
    } else {
      var init := t[..|t| - 1];
      LastValueSome(init, ext);
      var j :| 0 <= j < |init| && init[j].ext == ext && init[j].category == LastValue(init, ext).value
        && forall k :: j < k < |init| ==> init[k].ext != ext;
      assert t[j] == init[j];
    }
  }

  predicate HasKey(t: seq<Rule>, ext: string) {
    exists i :: 0 <= i < |t| && t[i].ext == ext
  }

  predicate UniqueKeys(t: seq<Rule>) {
    forall i, j :: 0 <= i < j < |t| ==> t[i].ext != t[j].ext
  }

  /** Evaluating one `key: value` item of a dict display: a key already
      present keeps its position and takes the new value; a new key is
      appended. */
  function Insert(t: seq<Rule>, item: Rule): seq<Rule> {
    var i := FirstPos(t, item.ext);
    if i < |t| then t[i := item] else t + [item]
  }

  /** Inserting a key keeps every existing entry in its place: a present
      key is not moved, a new key lands at the end, and the keys afterwards
      are the old ones plus the inserted one. */
  lemma InsertMeans(t: seq<Rule>, item: Rule)
    ensures var r := Insert(t, item);
      && (HasKey(t, item.ext) ==> |r| == |t|)
      && (!HasKey(t, item.ext) ==> r == t + [item])
      && (forall i :: 0 <= i < |t| ==> r[i].ext == t[i].ext)
      && (forall i :: 0 <= i < |r| && r[i].ext != item.ext ==> i < |t| && r[i] == t[i])
      && item in r
      && (forall e :: HasKey(r, e) <==> HasKey(t, e) || e == item.ext)
  {
    var r := Insert(t, item);
    HasKeySnoc(t, item, item.ext);
    forall e
      ensures HasKey(r, e) <==> HasKey(t, e) || e == item.ext
    {
      HasKeySnoc(t, item, e);
      if HasKey(t, e) {
        var i :| 0 <= i < |t| && t[i].ext == e;
        assert r[i].ext == e;
      }
      if HasKey(r, e) {
        var i :| 0 <= i < |r| && r[i].ext == e;
        assert i < |t| ==> r[i].ext == t[i].ext;
      }
    }
  }

  /** The dictionary a Python dict display builds from its items. */
  function DictDisplay(items: seq<Rule>): seq<Rule>
  {
    if items == [] then []
    else Insert(DictDisplay(items[..|items| - 1]), items[|items| - 1])
  }

  /** The table `autoArrange` iterates: `extensions.items()`. */
  const Extensions: seq<Rule> := DictDisplay(Written)

  lemma LastValueSnoc(p: seq<Rule>, x: Rule, ext: string)
    ensures LastValue(p + [x], ext)
         == if x.ext == ext then Some(x.category) else LastValue(p, ext)
  {
    assert (p + [x])[..|p|] == p;
  }

  lemma FirstPosSnoc(p: seq<Rule>, x: Rule, ext: string)
    ensures FirstPos(p, ext) < |p| ==> FirstPos(p + [x], ext) == FirstPos(p, ext)
    ensures FirstPos(p, ext) == |p| && x.ext == ext ==> FirstPos(p + [x], ext) == |p|
  {
    var a := FirstPos(p, ext);
    if a < |p| {
      assert (p + [x])[a] == p[a];
    } else if x.ext == ext {
      assert (p + [x])[|p|] == x;
    }
  }

  lemma HasKeySnoc(p: seq<Rule>, x: Rule, ext: string)
    ensures HasKey(p + [x], ext) <==> HasKey(p, ext) || x.ext == ext
    ensures HasKey(p, ext) <==> FirstPos(p, ext) < |p|
  {
    var items := p + [x];
    if HasKey(items, ext) && x.ext != ext {
      var k :| 0 <= k < |items| && items[k].ext == ext;
      assert p[k] == items[k];
    }
    if HasKey(p, ext) {
      var k :| 0 <= k < |p| && p[k].ext == ext;
      assert items[k] == p[k];
    }
    if x.ext == ext {
      assert items[|p|] == x;
    }
  }

  /** `t` is what Python's dict-display rule makes of `items`, stated
      without reference to how it is computed: the keys are those written,
      each once; every key carries the value of its last item; and keys are
      ordered by where each was first written. */
  ghost predicate DisplayOf(items: seq<Rule>, t: seq<Rule>) {
    && UniqueKeys(t)
    && SameKeys(items, t)
    && LastValues(items, t)
    && FirstWrittenOrder(items, t)
  }

  ghost predicate SameKeys(items: seq<Rule>, t: seq<Rule>) {
    forall e :: HasKey(t, e) <==> HasKey(items, e)
  }

  ghost predicate LastValues(items: seq<Rule>, t: seq<Rule>) {
    forall i :: 0 <= i < |t| ==> LastValue(items, t[i].ext) == Some(t[i].category)
  }

  ghost predicate FirstWrittenOrder(items: seq<Rule>, t: seq<Rule>) {
    forall i, j :: 0 <= i < j < |t| ==> FirstPos(items, t[i].ext) < FirstPos(items, t[j].ext)
  }

  /** Keys of a dictionary after a repeated key: its entry keeps its
      place and takes the new value, so the keys do not change. */
  lemma RepeatedKeys(p: seq<Rule>, x: Rule, t0: seq<Rule>)
    requires DisplayOf(p, t0)
    requires FirstPos(t0, x.ext) < |t0|
    ensures UniqueKeys(Insert(t0, x)) && SameKeys(p + [x], Insert(t0, x))
  {
    var items, t := p + [x], Insert(t0, x);
    var pos := FirstPos(t0, x.ext);
    assert t == t0[pos := x];
    assert forall i :: 0 <= i < |t| ==> t[i].ext == t0[i].ext;
    forall e ensures HasKey(t, e) <==> HasKey(items, e) {
      HasKeySnoc(p, x, e);
      if HasKey(t, e) {
        var k :| 0 <= k < |t| && t[k].ext == e;
        assert t0[k].ext == e;
      }
      if HasKey(t0, e) {
        var k :| 0 <= k < |t0| && t0[k].ext == e;
        assert t[k].ext == e;
      }
      if x.ext == e {
        assert t[pos].ext == e;
      }
    }
  }

  /** Values of a dictionary after a repeated key. */
  lemma RepeatedValues(p: seq<Rule>, x: Rule, t0: seq<Rule>)
    requires DisplayOf(p, t0)
    requires FirstPos(t0, x.ext) < |t0|
    ensures LastValues(p + [x], Insert(t0, x))
  {
    var items, t := p + [x], Insert(t0, x);
    var pos := FirstPos(t0, x.ext);
    assert t == t0[pos := x];
    forall i | 0 <= i < |t|
      ensures LastValue(items, t[i].ext) == Some(t[i].category)
    {
      LastValueSnoc(p, x, t[i].ext);
    }
  }

  /** Order of a dictionary after a repeated key. */
  lemma RepeatedOrder(p: seq<Rule>, x: Rule, t0: seq<Rule>)
    requires DisplayOf(p, t0)
    requires FirstPos(t0, x.ext) < |t0|
    ensures FirstWrittenOrder(p + [x], Insert(t0, x))
  {
    var items, t := p + [x], Insert(t0, x);
    var pos := FirstPos(t0, x.ext);
    assert t == t0[pos := x];
    assert forall i :: 0 <= i < |t| ==> t[i].ext == t0[i].ext;
    forall i | 0 <= i < |t|
      ensures FirstPos(items, t[i].ext) == FirstPos(p, t[i].ext)
    {
      assert HasKey(t0, t0[i].ext);
      HasKeySnoc(p, x, t[i].ext);
      FirstPosSnoc(p, x, t[i].ext);
    }
  }

  /** Keys of a dictionary with a new key appended. */
  lemma FreshKeys(p: seq<Rule>, x: Rule, t0: seq<Rule>)
    requires DisplayOf(p, t0)
    requires FirstPos(t0, x.ext) == |t0|
    ensures UniqueKeys(t0 + [x]) && SameKeys(p + [x], t0 + [x])
  {
    var items, t := p + [x], t0 + [x];
    forall e ensures HasKey(t, e) <==> HasKey(items, e) {
      HasKeySnoc(t0, x, e);
      HasKeySnoc(p, x, e);
    }
    forall i, j | 0 <= i < j < |t|
      ensures t[i].ext != t[j].ext
    {
      assert t[i] == t0[i];
      if j < |t0| {
        assert t[j] == t0[j];
      }
    }
  }

  /** Values of a dictionary with a new key appended. */
  lemma FreshValues(p: seq<Rule>, x: Rule, t0: seq<Rule>)
    requires DisplayOf(p, t0)
    requires FirstPos(t0, x.ext) == |t0|
    ensures LastValues(p + [x], t0 + [x])
  {
    var items, t := p + [x], t0 + [x];
    forall i | 0 <= i < |t|
      ensures LastValue(items, t[i].ext) == Some(t[i].category)
    {
      LastValueSnoc(p, x, t[i].ext);
      if i < |t0| {
        assert t[i] == t0[i];
      }
    }
  }

  /** Order of a dictionary with a new key appended. */
  lemma FreshOrder(p: seq<Rule>, x: Rule, t0: seq<Rule>)
    requires DisplayOf(p, t0)
    requires FirstPos(t0, x.ext) == |t0|
    ensures FirstWrittenOrder(p + [x], t0 + [x])
  {
    var items, t := p + [x], t0 + [x];
    HasKeySnoc(t0, x, x.ext);
    HasKeySnoc(p, x, x.ext);
    FirstPosSnoc(p, x, x.ext);
    forall i | 0 <= i < |t0|
      ensures FirstPos(items, t[i].ext) == FirstPos(p, t[i].ext) < |p|
    {
      assert t[i] == t0[i];
      assert HasKey(t0, t0[i].ext);
      HasKeySnoc(p, x, t[i].ext);
      FirstPosSnoc(p, x, t[i].ext);
    }
    forall i, j | 0 <= i < j < |t|
      ensures FirstPos(items, t[i].ext) < FirstPos(items, t[j].ext)
    {
      assert t[i] == t0[i];
      if j < |t0| {
        assert t[j] == t0[j];
      }
    }
  }

  lemma {:induction false} DictDisplaySemantics(items: seq<Rule>)
    ensures DisplayOf(items, DictDisplay(items))
  {
    if items != [] {
      var p, x := items[..|items| - 1], items[|items| - 1];
      assert items == p + [x];
      DictDisplaySemantics(p);
      if FirstPos(DictDisplay(p), x.ext) < |DictDisplay(p)| {
        RepeatedKeys(p, x, DictDisplay(p));
        RepeatedValues(p, x, DictDisplay(p));
        RepeatedOrder(p, x, DictDisplay(p));
      } else {
        FreshKeys(p, x, DictDisplay(p));
        FreshValues(p, x, DictDisplay(p));
        FreshOrder(p, x, DictDisplay(p));
      }
    }
  }

  /** Rule `i` is the first rule of the table whose extension ends `name`. */
  predicate FirstMatchAt(rules: seq<Rule>, name: string, i: int) {
    && 0 <= i < |rules|
    && EndsWith(name, rules[i].ext)
    && forall j :: 0 <= j < i ==> !EndsWith(name, rules[j].ext)
  }

  /** The inner loop of `autoArrange`: walk the rules in table order and
      stop at the first extension that `name` ends with. */
  function Resolve(rules: seq<Rule>, name: string): (r: Option<string>)
    ensures r.None? <==> forall i :: 0 <= i < |rules| ==> !EndsWith(name, rules[i].ext)
    ensures r.Some? ==> exists i :: FirstMatchAt(rules, name, i) && r.value == rules[i].category
  {
    if rules == [] then None
    else if EndsWith(name, rules[0].ext) then
      assert FirstMatchAt(rules, name, 0);
      Some(rules[0].category)
    else
      var r := Resolve(rules[1..], name);
      if r.Some? then
        var i :| FirstMatchAt(rules[1..], name, i) && r.value == rules[1..][i].category;
        assert FirstMatchAt(rules, name, i + 1);
        r
      else
        assert forall i :: 1 <= i < |rules| ==> rules[i] == rules[1..][i - 1];
        r
  }

  /** First match wins: the category comes from the first matching rule,
      whatever later rules say. */
  lemma FirstMatchWins(rules: seq<Rule>, name: string, i: nat)
    requires FirstMatchAt(rules, name, i)
    ensures Resolve(rules, name) == Some(rules[i].category)
  {
    var r := Resolve(rules, name);
    var k :| FirstMatchAt(rules, name, k) && r.value == rules[k].category;
    assert k == i;
  }

  /** Once a rule matched, no later rule is consulted: appending rules
      cannot change a resolved category. */
  lemma LaterRulesIgnored(rules: seq<Rule>, later: seq<Rule>, name: string)
    requires Resolve(rules, name).Some?
    ensures Resolve(rules + later, name) == Resolve(rules, name)
  {
    var i :| FirstMatchAt(rules, name, i) && Resolve(rules, name).value == rules[i].category;
    assert FirstMatchAt(rules + later, name, i) by {
      assert forall j :: 0 <= j <= i ==> (rules + later)[j] == rules[j];
    }
    FirstMatchWins(rules + later, name, i);
  }

  /** Index of the last dot of `s`, if any. */
  function LastDot(s: string): (r: Option<nat>)
    ensures r.Some? ==>
      && r.value < |s| && s[r.value] == '.'
      && forall k :: r.value < k < |s| ==> s[k] != '.'
    ensures r.None? ==> forall k :: 0 <= k < |s| ==> s[k] != '.'
  {
    if s == [] then None
    else if s[|s| - 1] == '.' then Some(|s| - 1)
    else LastDot(s[..|s| - 1])
  }

  /** The part of `name` from its last dot on, e.g. `.gz` for
      `archive.tar.gz`; empty when `name` has no dot. */
  function FinalExtension(name: string): string {
    match LastDot(name)
    case None => ""
    case Some(d) => name[d..]
  }

  /** An extension (a dot and a dot-free name) that ends `name` is the final
      extension of `name`. */
  lemma ExtensionIsFinal(name: string, e: string)
    requires IsExtension(e)
    requires EndsWith(name, e)
    ensures FinalExtension(name) == e
  {

    var d := |name| - |e|;
    assert name[d] == e[0];
    forall k | d < k < |name| ensures name[k] != '.' {
      assert name[k] == e[k - d];
    }
    var l := LastDot(name);
    assert l.Some? && l.value == d;
  }

  /** Because every key is a dot followed by a dot-free name and the keys
      of a dict display are unique, at most one of its rules ends any given
      file name: first-match-wins never has to choose between two rules. */
  lemma SingleMatch(items: seq<Rule>, name: string, i: nat, j: nat)
    requires i < |DictDisplay(items)| && j < |DictDisplay(items)|
    requires EndsWith(name, DictDisplay(items)[i].ext) && EndsWith(name, DictDisplay(items)[j].ext)
    ensures i == j
  {
    DictDisplaySemantics(items);
    ExtensionIsFinal(name, DictDisplay(items)[i].ext);
    ExtensionIsFinal(name, DictDisplay(items)[j].ext);
  }

  /** A name whose final extension is a written key is classified. */
  lemma KeyedNameResolves(items: seq<Rule>, name: string)
    ensures HasKey(items, FinalExtension(name)) ==> Resolve(DictDisplay(items), name).Some?
  {
    var e := FinalExtension(name);
    var t := DictDisplay(items);
    if HasKey(items, e) {
      DictDisplaySemantics(items);
      assert HasKey(t, e);
      var i :| 0 <= i < |t| && t[i].ext == e;
      var d := LastDot(name).value;
      assert name[d..] == e;
      assert EndsWith(name, t[i].ext);
    }
  }

  /** The category `autoArrange` picks for a file is the value last written
      for the file's final extension; names whose final extension is not a
      key (or that have no dot) are not classified. Stated for any dict
      display, so for `Extensions = DictDisplay(Written)` in particular. */
  lemma ResolveByFinalExtension(items: seq<Rule>, name: string)
    ensures Resolve(DictDisplay(items), name) == LastValue(items, FinalExtension(name))
  {
    DictDisplaySemantics(items);
    var t := DictDisplay(items);
    var r := Resolve(t, name);
    if r.Some? {
      var i :| FirstMatchAt(t, name, i) && r.value == t[i].category;
      ExtensionIsFinal(name, t[i].ext);
    } else {
      KeyedNameResolves(items, name);
      LastValueMeans(items, FinalExtension(name));
    }
  }

  lemma {:induction false} LastValueAt(t: seq<Rule>, j: nat, ext: string)
    requires j < |t| && t[j].ext == ext
    requires forall k :: j < k < |t| ==> t[k].ext != ext
    ensures LastValue(t, ext) == Some(t[j].category)
    decreases |t|
  {
    if j < |t| - 1 {
      LastValueAt(t[..|t| - 1], j, ext);
    }
  }

  /** Items without the key `e` written after `a` leave its value alone. */
  lemma {:induction false} LastValueSkip(a: seq<Rule>, b: seq<Rule>, e: string)
    requires Lacks(b, e)
    ensures LastValue(a + b, e) == LastValue(a, e)
    decreases |b|
  {
    if b == [] {
      assert a + b == a;
    } else {
      var ab := a + b;
      assert ab[..|ab| - 1] == a + b[..|b| - 1];
      LastValueSkip(a, b[..|b| - 1], e);
    }
  }

  /** The last item with key `e` decides, whatever came before it. */
  lemma {:induction false} LastValueFrom(a: seq<Rule>, b: seq<Rule>, e: string)
    requires LastValue(b, e).Some?
    ensures LastValue(a + b, e) == LastValue(b, e)
    decreases |b|
  {
    var ab := a + b;
    var init := b[..|b| - 1];
    assert ab[|ab| - 1] == b[|b| - 1];
    assert ab[..|ab| - 1] == a + init;
    if b[|b| - 1].ext != e {
      assert LastValue(b, e) == LastValue(init, e);
      LastValueFrom(a, init, e);
    }
  }

  /** The items written up to a section, as prefixes of `Written`. */
  const UpToArchives: seq<Rule> :=
    ScriptItems + WebItems + DocumentItems + ImageItems + AudioItems + VideoItems + ArchiveItems
  const UpToData: seq<Rule> := UpToArchives + DataItems
  const UpToContainers: seq<Rule> := UpToData + ExecutableItems + FontItems + ContainerItems

  lemma SkipAfterContainers(e: string)
    requires Lacks(ConfigItems, e) && Lacks(MiscItems, e)
    ensures LastValue(Written, e) == LastValue(UpToContainers, e)
  {
    LastValueSkip(UpToContainers + ConfigItems, MiscItems, e);
    LastValueSkip(UpToContainers, ConfigItems, e);
  }

  lemma SkipAfterData(e: string)
    requires Lacks(ConfigItems, e) && Lacks(MiscItems, e)
    requires Lacks(ExecutableItems, e) && Lacks(FontItems, e) && Lacks(ContainerItems, e)
    ensures LastValue(Written, e) == LastValue(UpToData, e)
  {
    SkipAfterContainers(e);
    LastValueSkip(UpToData + ExecutableItems + FontItems, ContainerItems, e);
    LastValueSkip(UpToData + ExecutableItems, FontItems, e);
    LastValueSkip(UpToData, ExecutableItems, e);
  }

  lemma SkipAfterArchives(e: string)
    requires Lacks(ConfigItems, e) && Lacks(MiscItems, e)
    requires Lacks(ExecutableItems, e) && Lacks(FontItems, e) && Lacks(ContainerItems, e)
    requires Lacks(DataItems, e)
    ensures LastValue(Written, e) == LastValue(UpToArchives, e)
  {
    SkipAfterData(e);
    LastValueSkip(UpToArchives, DataItems, e);
  }

  /** The three keys the table repeats take the value of their later item:
      `.json` and `.xml` go to `data`, `.yml` to `docker-compose`. */
  lemma JsonTakesLastValue()
    ensures LastValue(Written, ".json") == Some("data")
  {
    SkipAfterData(".json");
    LastValueAt(DataItems, 1, ".json");
    LastValueFrom(UpToArchives, DataItems, ".json");
  }

  lemma XmlTakesLastValue()
    ensures LastValue(Written, ".xml") == Some("data")
  {
    SkipAfterData(".xml");
    LastValueAt(DataItems, 2, ".xml");
    LastValueFrom(UpToArchives, DataItems, ".xml");
  }

  lemma YmlTakesLastValue()
    ensures LastValue(Written, ".yml") == Some("docker-compose")
  {
    SkipAfterContainers(".yml");
    LastValueAt(ContainerItems, 5, ".yml");
    LastValueFrom(UpToData + ExecutableItems + FontItems, ContainerItems, ".yml");
  }
}
