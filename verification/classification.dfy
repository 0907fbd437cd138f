/** Worked classifications through the effective extension table: the
    names a user is most likely to meet, including the keys the table
    writes twice and a name with two extensions. */
module Classification {
  import opened Basics
  import opened Registry

  lemma GzLaterLack()
    ensures Lacks(DataItems, ".gz") && Lacks(ExecutableItems, ".gz") && Lacks(FontItems, ".gz")
    ensures Lacks(ContainerItems, ".gz") && Lacks(ConfigItems, ".gz") && Lacks(MiscItems, ".gz")
  {
  }

  lemma GzInArchives()
    ensures LastValue(ArchiveItems, ".gz") == Some("archives")
  {
    LastValueAt(ArchiveItems, 3, ".gz");
  }

  lemma GzIsArchive()
    ensures LastValue(Written, ".gz") == Some("archives")
  {
    GzLaterLack();
    SkipAfterArchives(".gz");
    GzInArchives();
    LastValueFrom(ScriptItems + WebItems + DocumentItems + ImageItems + AudioItems + VideoItems, ArchiveItems, ".gz");
  }

  /** `archive.tar.gz` is classified by its final extension `.gz` alone and
      goes to `archives`. */
  lemma ArchiveTarGzGoesToArchives()
    ensures Resolve(Extensions, "archive.tar.gz") == Some("archives")
  {
    GzIsArchive();
    assert "archive.tar.gz"[11..] == ".gz";
    ClassifiedBy("archive.tar.gz", 11);
  }

  /** A name is classified by the value last written for the part from
      its last dot on. */
  lemma ClassifiedBy(name: string, d: nat)
    requires d < |name| && name[d] == '.'
    requires forall k :: d < k < |name| ==> name[k] != '.'
    ensures Resolve(Extensions, name) == LastValue(Written, name[d..])
  {
    FinalExtensionAt(name, d);
    TableResolvesByFinalExtension(name);
  }

  lemma TableResolvesByFinalExtension(name: string)
    ensures Resolve(Extensions, name) == LastValue(Written, FinalExtension(name))
  {
    ResolveByFinalExtension(Written, name);
  }

  /** A name without a dot is not classified. */
  lemma DotlessUnclassified(name: string)
    requires forall k :: 0 <= k < |name| ==> name[k] != '.'
    ensures Resolve(Extensions, name) == None
  {
    TableResolvesByFinalExtension(name);
    NoEmptyKey();
  }

  /** `d` is the index of the last dot of `s`. */
  lemma FinalExtensionAt(s: string, d: nat)
    requires d < |s| && s[d] == '.'
    requires forall k :: d < k < |s| ==> s[k] != '.'
    ensures FinalExtension(s) == s[d..]
  {
    assert LastDot(s) == Some(d);
  }

  /** Only the first section can have `e`. */
  predicate LaterSectionsLack(e: string) {
    && Lacks(WebItems, e) && Lacks(DocumentItems, e) && Lacks(ImageItems, e)
    && Lacks(AudioItems, e) && Lacks(VideoItems, e) && Lacks(ArchiveItems, e)
    && Lacks(DataItems, e) && Lacks(ExecutableItems, e) && Lacks(FontItems, e)
    && Lacks(ContainerItems, e) && Lacks(ConfigItems, e) && Lacks(MiscItems, e)
  }

  /** When only the first section can have `e`, it decides `e`'s value. */
  lemma OnlyScriptsDecide(e: string)
    requires LaterSectionsLack(e)
    ensures LastValue(Written, e) == LastValue(ScriptItems, e)
  {
    SkipAfterArchives(e);
    var s, w, d, i, a, v := ScriptItems, WebItems, DocumentItems, ImageItems, AudioItems, VideoItems;
    LastValueSkip(s + w + d + i + a + v, ArchiveItems, e);
    LastValueSkip(s + w + d + i + a, v, e);
    LastValueSkip(s + w + d + i, a, e);
    LastValueSkip(s + w + d, i, e);
    LastValueSkip(s + w, d, e);
    LastValueSkip(s, w, e);
  }

  lemma PyLaterLack()
    ensures LaterSectionsLack(".py")
  {
  }

  lemma PyInScripts()
    ensures LastValue(ScriptItems, ".py") == Some("python-code")
  {
    LastValueAt(ScriptItems, 0, ".py");
  }

  lemma PyIsPythonCode()
    ensures LastValue(Written, ".py") == Some("python-code")
  {
    PyLaterLack();
    OnlyScriptsDecide(".py");
    PyInScripts();
  }

  /** `script.py` goes to `python-code`. */
  lemma ScriptPyGoesToPythonCode()
    ensures Resolve(Extensions, "script.py") == Some("python-code")
  {
    PyIsPythonCode();
    assert "script.py"[6..] == ".py";
    ClassifiedBy("script.py", 6);
  }

  lemma XyzLaterLack()
    ensures LaterSectionsLack(".xyz")
  {
  }

  lemma XyzNotInScripts()
    ensures LastValue(ScriptItems, ".xyz") == None
  {
    assert Lacks(ScriptItems, ".xyz");
    LastValueMeans(ScriptItems, ".xyz");
  }

  lemma XyzIsNoKey()
    ensures LastValue(Written, ".xyz") == None
  {
    XyzLaterLack();
    OnlyScriptsDecide(".xyz");
    XyzNotInScripts();
  }

  /** A name whose extension is not a key is not classified:
      `autoArrange` leaves such a file where it is. */
  lemma UnknownExtensionStays()
    ensures Resolve(Extensions, "unknownfile.xyz") == None
  {
    XyzIsNoKey();
    assert "unknownfile.xyz"[11..] == ".xyz";
    ClassifiedBy("unknownfile.xyz", 11);
  }

  /** Every key has at least a dot and one more character. */
  lemma NoEmptyKey()
    ensures LastValue(Written, "") == None
  {
    assert forall j :: 0 <= j < |Written| ==> |Written[j].ext| >= 2;
    LastValueMeans(Written, "");
  }

  /** Nor is a name without any dot. */
  lemma DotlessNameStays()
    ensures Resolve(Extensions, "Makefile") == None
  {
    assert forall k :: 0 <= k < |"Makefile"| ==> "Makefile"[k] != '.';
    DotlessUnclassified("Makefile");
  }

  /** The keys written twice take the value of their later item: a
      `.json` or `.xml` file goes to `data`, a `.yml` file to
      `docker-compose`. */
  lemma JsonFileGoesToData()
    ensures Resolve(Extensions, "report.json") == Some("data")
  {
    JsonTakesLastValue();
    assert "report.json"[6..] == ".json";
    ClassifiedBy("report.json", 6);
  }

  lemma XmlFileGoesToData()
    ensures Resolve(Extensions, "feed.xml") == Some("data")
  {
    XmlTakesLastValue();
    assert "feed.xml"[4..] == ".xml";
    ClassifiedBy("feed.xml", 4);
  }

  lemma YmlFileGoesToDockerCompose()
    ensures Resolve(Extensions, "compose.yml") == Some("docker-compose")
  {
    YmlTakesLastValue();
    assert "compose.yml"[7..] == ".yml";
    ClassifiedBy("compose.yml", 7);
  }
}
