# Arranger: a Dafny model of `arangeme.py`

Arranger is a small desktop utility that tidies one folder. It offers three operations:

- **auto-arrange** moves every regular file into a sub-folder named after the category of its extension.
- **add specific key** moves every regular file whose name contains a word into a sub-folder named after that word.
- **delete duplicates** groups the regular files by the MD5 digest of their content. In each group it keeps the first file and deletes the rest.

This project models those three operations and the extension table they rely on, and proves properties of the model.

The model is built from these pieces:

- **The folder.** It is a map from relative paths to nodes, where a node is a file with its bytes or a folder (`FileTree`). The folder's own path matters only for the "no directory selected" guard.
- **The filesystem primitives.** `os.makedirs(..., exist_ok=True)`, `shutil.move` and `os.remove` are functions that return either a new tree or the error Python would raise. `FileTree.MakeFolder` and `FileTree.Remove` accept every input. `FileTree.MoveInto` requires what its callers have already checked: the source is a regular file and the destination folder exists.
- **The listing.** `os.listdir` becomes a `listing` parameter, because its order belongs to the operating system. The operations accept any listing. The lemmas assume one that names no entry twice, and some assume one that names every top-level entry.
- **The extension table.** It is the 124 items in the order they are written (`Registry.Written`). `Registry.DictDisplay` applies Python's dict-display rule to them: a repeated key keeps its first position and takes its last value. So `.json` and `.xml` map to `data` and `.yml` maps to `docker-compose`.
- **Classification.** `Registry.Resolve` is the first-match loop over the resulting table.
- **The digest.** It is a function parameter `Bytes -> string`.

## Error handling and moves

- **autoArrange and deleteDuplicates have no `try`/`except`.** A per-file failure is not isolated: the first error ends the batch. The report is `Aborted` and carries the moves or deletions made so far.
- **addSpecific catches errors per file,** as its `try`/`except` does.
- **Where `shutil.move` puts a file.**
  - It renames the file to `<folder>/<name>`, silently replacing a regular file already there. Both the rename and the copy-then-delete fallback overwrite.
  - If `<folder>/<name>` is itself a folder, the file goes inside it. The move then fails if `<folder>/<name>/<name>` already exists.

## Model

| member | source | states |
|---|---|---|
| Text.Contains | arangeme.py:227 | `word in file` holds exactly when the word occurs at some position of the file name |
| Text.Strip | arangeme.py:208 | the stripped word is a middle slice of the input; everything cut off is whitespace; it neither starts nor ends with whitespace; it is empty exactly when the input is all whitespace |
| FileTree.MakeFolder | arangeme.py:193 | creating the category folder fails exactly when a regular file has its name; otherwise the folder exists afterwards, no other path changes, and a well-formed tree stays well formed |
| FileTree.MoveInto | arangeme.py:196 | the move fails only when `<folder>/<name>` is a folder that already holds `<name>`; otherwise the file leaves the top level, its content sits at `<folder>/<name>` (or inside that folder), and nothing else changes |
| FileTree.MoveIntoPreservesWellFormed | arangeme.py:196 | a successful move keeps every entry inside a folder |
| FileTree.Remove | arangeme.py:275 | deleting fails exactly when the path is not a regular file; otherwise that path is gone and nothing else changes |
| Registry.InsertMeans | arangeme.py:7-157 | specifies `Registry.Insert`, one item of the dict display: a key already present keeps its position and the length stays; a new key is appended at the end; every other entry stays where it was; the inserted item is in the table; the keys afterwards are the old keys plus the inserted one |
| Registry.DictDisplaySemantics | arangeme.py:7-157 | specifies `Registry.DictDisplay`: the effective table has each written key exactly once, with the value of its last item, ordered by where each key was first written |
| Registry.LastValueMeans | arangeme.py:7-157 | specifies `Registry.LastValue`: a key has no value exactly when no item writes it; otherwise its value is that of an item with the key that no later item overrides |
| Registry.LastValueAt | arangeme.py:7-157 | the item at position `j` decides a key's value when no later item writes that key |
| Registry.Resolve | arangeme.py:189-198 | no category exactly when no extension of the table ends the name; otherwise the category of the first rule, in table order, whose extension ends the name |
| Registry.FirstMatchWins | arangeme.py:189-198 | if rule `i` is the first rule matching the name, the name gets rule `i`'s category |
| Registry.LaterRulesIgnored | arangeme.py:198 | once a rule matched, appending further rules cannot change the category |
| Registry.ExtensionIsFinal | arangeme.py:190 | a key (a dot and a dot-free name) that ends a file name is exactly that name's final extension |
| Registry.SingleMatch | arangeme.py:189-190 | at most one rule of a dict display ends any given file name, so first-match never chooses between two rules |
| Registry.ResolveByFinalExtension | arangeme.py:189-190 | the category of a name is the value last written for its final extension, and there is none when that extension is not a key or the name has no dot |
| Registry.JsonTakesLastValue | arangeme.py:41-109 | `.json` is written twice, and its value is `data` from the later item, not `json-data` |
| Registry.XmlTakesLastValue | arangeme.py:42-110 | `.xml` is written twice, and its value is `data`, not `xml-data` |
| Registry.YmlTakesLastValue | arangeme.py:44-139 | `.yml` is written twice, and its value is `docker-compose`, not `yaml-data` |
| Classification.ClassifiedBy | arangeme.py:189-198 | a name whose last dot is at `d` goes to the category last written for `name[d..]` |
| Classification.TableResolvesByFinalExtension | arangeme.py:189-198 | the arranger's own table classifies every name by its final extension |
| Classification.DotlessUnclassified | arangeme.py:189-198 | a name without a dot matches no rule |
| Classification.NoEmptyKey | arangeme.py:7-157 | no key of the table is empty |
| Classification.ArchiveTarGzGoesToArchives | arangeme.py:101 | `archive.tar.gz` goes to `archives` by its final extension `.gz` |
| Classification.ScriptPyGoesToPythonCode | arangeme.py:9 | `script.py` goes to `python-code` |
| Classification.JsonFileGoesToData | arangeme.py:109 | `report.json` goes to `data` |
| Classification.XmlFileGoesToData | arangeme.py:110 | `feed.xml` goes to `data` |
| Classification.YmlFileGoesToDockerCompose | arangeme.py:139 | `compose.yml` goes to `docker-compose` |
| Classification.UnknownExtensionStays | arangeme.py:189-198 | `unknownfile.xyz` matches no rule |
| Classification.DotlessNameStays | arangeme.py:189-198 | `Makefile` matches no rule |
| Arrange.AutoArrange | arangeme.py:182-184 | with no directory selected, nothing changes and that is reported |
| Arrange.ArrangeFiles | arangeme.py:186-198 | the `for file in os.listdir(...)` loop either finishes or aborts; it never reports "no directory" |
| Arrange.ArrangeFilesSound | arangeme.py:186-198 | each move takes a listed, classified top-level regular file into the folder of its resolved category with its content unchanged, to the place `shutil.move` chooses on the tree before the run: `<category>/<name>/<name>` when `<category>/<name>` was a folder, and then only if that entry did not exist; otherwise `<category>/<name>`; a path neither moved from nor moved to keeps its node; a path that is new afterwards is a destination or a top-level folder named after the category of a listed regular file; an abort is caused by an obstacle present beforehand in the way of a listed classified file: a regular file with the name of its category folder, or an entry `<category>/<name>/<name>` under a folder `<category>/<name>`; a well-formed tree stays well formed |
| Arrange.ArrangeFilesCompletes | arangeme.py:186-198 | when no listed classified regular file meets such an obstacle, the loop finishes |
| Arrange.ArrangeFilesExact | arangeme.py:186-198 | on a listing without repeats, the moved names are exactly the classified top-level files in listing order, each once; after an abort they are a proper prefix of them, and the error is the one the next classified file raises on the tree as it was before the run: its category is the name of a regular file (`makedirs` fails), or `<category>/<name>` is a folder already holding `<name>` (`shutil.move` fails) |
| Arrange.UnmatchedUntouched | arangeme.py:188-190 | top-level folders, and files no rule classifies, keep their top-level entry exactly as it was, whether the run finished or aborted; a folder may gain entries inside it |
| Arrange.NothingLeftToArrange | arangeme.py:186-198 | after a run over the full listing that finished, no classified regular file remains at the top level |
| Arrange.ArrangeNothing | arangeme.py:186-198 | when no top-level file is classified, the loop moves nothing and changes nothing |
| Arrange.AutoArrangeIdempotent | arangeme.py:180-198 | after a finished run over the full listing, a second run, over any listing, moves nothing and leaves the tree as it is |
| Keyword.NoMovesIff | arangeme.py:236-239 | the moved count is zero exactly when no attempt moved a file |
| Keyword.GroupFiles | arangeme.py:218-234 | the word's folder stays a folder, and `moved_count` is the number of successful moves among the attempts |
| Keyword.AddSpecific | arangeme.py:204-239 | empty path: no-op; an all-whitespace keyword: no-op reported as no word; a regular file named like the word: aborted with nothing changed; otherwise the word is the stripped keyword, and "none found" is reported exactly when nothing was moved, with the count equal to the successful moves |
| Keyword.GroupFilesSound | arangeme.py:219-234 | every attempt concerns a listed regular file containing the word; a moved file reaches the word's folder with its content unchanged, at the place `shutil.move` chooses on the tree before the loop: `<word>/<name>/<name>` when `<word>/<name>` was a folder, and then only if that entry did not exist; otherwise `<word>/<name>`; a failed move raised because that entry existed and leaves the file in place unchanged; nothing else changes |
| Keyword.GroupFilesExact | arangeme.py:219-230 | on a listing without repeats, the attempted files are exactly the regular files whose name contains the word, in listing order |
| Keyword.AddSpecificGroups | arangeme.py:208-234 | with a usable word, the word's folder exists afterwards; the attempts are exactly the top-level files containing the word (judged before the folder was made), each sound as above, with destinations judged on the tree before `makedirs`; only they, their destinations and the new folder change |
| Duplicates.Scan | arangeme.py:258-261 | every scanned entry is a listed regular file paired with the digest of its content |
| Duplicates.ScanNames | arangeme.py:258-260 | the scanned names are the listed names that are regular files, in listing order |
| Duplicates.AddStep | arangeme.py:262-267 | specifies `Duplicates.AddToGroups`, one step of the scan loop: adding a file keeps the grouping relation below, whether its digest already has a list (append) or not (a new list) |
| Duplicates.VictimsGrow | arangeme.py:262-274 | specifies `Duplicates.Victims` under an append: adding a name to a non-empty list adds exactly that name, once, to the files to delete |
| Duplicates.VictimsMatchRepeats | arangeme.py:271-274 | on a listing without repeats, the files `Duplicates.Victims` collects from the lists beyond each first are distinct and are exactly the files whose digest an earlier file has |
| Duplicates.GroupByDigestInvariant | arangeme.py:255-267 | specifies `Duplicates.GroupByDigest`: `hash_to_files` has no empty list and one list per digest seen; the files beyond each list's first are, as a multiset, exactly the files whose digest an earlier file has |
| Duplicates.GroupMembers | arangeme.py:262-267 | each list holds exactly the scanned files with its digest, in scan order |
| Duplicates.RepeatsMeans | arangeme.py:271-274 | a name is among the repeats exactly when it is scanned with the digest of an earlier scanned file |
| Duplicates.RemoveAll | arangeme.py:274-277 | the deletion loop removes a prefix of the files to delete, all of them only when nothing fails; each removed file was a regular file and is gone; nothing else changes; it stops at a file that is no longer a regular file |
| Duplicates.RemoveAllDistinctFiles | arangeme.py:274-277 | deleting distinct regular files one by one never fails |
| Duplicates.DeleteDuplicates | arangeme.py:249-282 | empty path: no-op; otherwise the deleted files are a prefix of the files beyond each list's first, each was a regular file and is gone, nothing else changes, and "no duplicates" is reported exactly when nothing was deleted, with the count equal to the number deleted |
| Duplicates.DeleteDuplicatesCompletes | arangeme.py:269-277 | on a listing without repeats the deletion loop never fails and deletes every file beyond the first of each list |
| Duplicates.DeleteDuplicatesSound | arangeme.py:255-282 | the deleted files are exactly the scanned files whose digest an earlier scanned file has; their number is the scanned count minus the number of lists; "no duplicates" is reported exactly when no two scanned files share a digest; lists are non-empty, one per digest seen, with distinct digests |
| Duplicates.KeepsFirstOfEachGroup | arangeme.py:271-277 | each list holds its digest's files in scan order, and its first file is not deleted and stays unchanged |
| Duplicates.SurvivorsHaveDistinctDigests | arangeme.py:255-282 | afterwards no two listed files that remain share a digest |
| Duplicates.EveryDigestSurvives | arangeme.py:271-277 | every digest a listed file had is still the digest of some listed file afterwards |
| Duplicates.EveryContentSurvives | arangeme.py:241-282 | with a digest that tells contents apart, every content a listed file had is still held by some listed file afterwards |

## Left out

- The directory dialog (`choose_directory`), the banner (`flag`), the menu loop (`main`) and every printed message are not modelled. Only the outcome each message reports is kept: no directory, no word, the counts, and the moved and deleted names.
- `input()` is not modelled; its line is the `keyword` parameter of `Keyword.AddSpecific`.
- MD5 and the chunked reading of `calculate_file_hash` are not modelled; the digest is a function parameter. MD5 is not injective, so `Duplicates.EveryContentSurvives` takes injectivity as a hypothesis.
- `os.listdir` is a parameter, because its order is the operating system's. The lemmas that speak about all files assume a listing without repeats that names every top-level entry.
- Permission errors, files that vanish during a run, symbolic links, and cross-device details of `shutil.move` are not modelled. Only the errors the modelled states cause are.
- Keyword.AddSpecific: requires the stripped word to be a single path component (no `/`, not `.` or `..`), because those words leave the one-level folder this model describes. A word containing `/` makes `os.path.join` name a nested folder, and `makedirs` creates every level of it. The word `..` names the parent of the source directory, so matching files move out of the folder. The word `.` names the source directory itself, so every file whose name contains a dot is moved onto itself and is counted as moved.
- Arrange.ArrangeFilesSound: category folders are taken to be single path components, as every value of the table is.
- Arrange.ArrangeFilesSound: for any listing, repeats included, it names an obstacle that some listed classified file meets, not the file at which the loop stopped. `Arrange.ArrangeFilesExact` names that file for a listing without repeats.
- Duplicates.DeleteDuplicatesSound: the order of the lists of `hash_to_files` (first-seen order) is built by the model but not stated as a property. Only each list's contents and the set of digests are stated.
