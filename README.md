# FileSynapse-AI core, modelled in Dafny

FileSynapse-AI scans a folder, describes every file it finds, assigns each file to a
category, and then moves the files into one sub-folder per category. The folder
manager can also undo moves, remove empty folders, and back up and restore a folder.
This project models the three classes that do this work and proves what they promise.

- `AIClassifier` (`classifier.dfy`, module `Classifier`).
  - Its category mapping is an ordered dictionary from category key to rule. Each rule
    may carry `extensions`, `mime_types` and `keywords`, and each of them may be absent.
  - `classify_file` ranks the three lookups as extension, then MIME-type prefix, then
    filename keyword. Each lookup is a first-match search in mapping order.
  - `batch_classify` puts every descriptor into the bucket of its category.
  - `update_category_mappings` merges new rules into the mapping, as `dict.update` does.
  - When the mapping file cannot be loaded, a fallback mapping of six keys is used.
- `FileAnalyzer` (`analyzer.dfy`, module `Analyzer`).
  - MIME resolution: the built-in extension table, then the platform guess, then a type
    made from the extension, then `application/octet-stream`.
  - `extract_version_info` turns a filename into a version number and draft/final flags.
    The version pattern `v(\d+(\.\d+)*)|version\s*(\d+(\.\d+)*)` is a hand-written leftmost,
    greedy scanner. The scanner is proved equal to a reference reading of the pattern.
  - The keyword filter keeps distinct, lowered tokens longer than three characters, at
    most twenty of them.
  - `analyze_file` skips files over 100 MiB and collects keywords only below 10 MiB.
  - `scan_directory` analyses every file a walk lists. Over a walk that covers the folder,
    that is every file under it.
- `FolderManager` (`folder_manager.dfy`, module `FolderManager`) works over an in-memory
  file system (`filesystem.dfy`, module `FileSystem`).
  - A `Path` is the sequence of names from the root.
  - The tree is a `map<Path, Node>` in which a node is a file with its bytes or a
    folder.
  - The class `Disk` holds the tree. Its methods `MakeDirs`, `Remove`, `RemoveDir`,
    `RemoveTree`, `CopyTree` and `Move` model `os.makedirs`, `os.remove`, `os.rmdir`,
    `shutil.rmtree`, `shutil.copytree` and `shutil.move`.
  - Each such method changes the tree as a pure function (`MakeDirsFs`, …) says.
  - Every folder-manager operation is a method on a `Disk`, proved equal to a pure
    function of the old tree. The properties are lemmas about that function.

Shared pieces:
- `Wrappers`: `Option`.
- `Text`: lower-casing, substring tests, `os.path.splitext`, and the conflict-renaming
  suffix.
- `Dicts`: Python's insertion-ordered dictionaries with `get`, `d[k] = v` and `update`.
- `Descriptors`: the file descriptor, with one optional field per dictionary key, and the
  version record.

The timestamp `datetime.now().strftime(...)` is a string parameter of each call that uses it.

## Model

| member | source | states |
|---|---|---|
| Classifier.FallbackMappings | src/core/ai_classifier.py:40-73 | the fallback mapping has six categories in the order document, media, code, design, archive, other, and none of them has keywords |
| Classifier.FallbackKeys | tests/test_ai_classifier.py:21-28 | the fallback keys are exactly those six, in order, with no key twice |
| Classifier.FirstMatch | src/core/ai_classifier.py:103-106 | a first-match lookup returns "other" or one of the mapping's keys |
| Classifier.FirstMatchSpec | src/core/ai_classifier.py:103-106 | the lookup returns the key of the first rule that accepts, or "other" when no rule accepts |
| Classifier.FirstMatchAt | src/core/ai_classifier.py:110-115 | when rule i is the first that accepts, the lookup returns key i |
| Classifier.FirstMatchNone | src/core/ai_classifier.py:121-127 | when no rule accepts, the lookup returns "other" |
| Classifier.ClassifyByExtension | src/core/ai_classifier.py:100-106 | the key of the first rule, in mapping order, that has an extension list holding the lowered extension; "other" when there is none |
| Classifier.ClassifyByMime | src/core/ai_classifier.py:108-115 | the key of the first rule, in mapping order, with a MIME pattern that the MIME type starts with; "other" when there is none |
| Classifier.ClassifyByName | src/core/ai_classifier.py:117-127 | the key of the first rule, in mapping order, with a keyword whose lowered form occurs in the lowered filename; "other" when there is none |
| Classifier.ClassifyFile | src/core/ai_classifier.py:75-98 | the category is "other" or a key of the mapping |
| Classifier.ClassifyPriority | src/core/ai_classifier.py:77-98 | a descriptor missing extension, mime_type or name is "other"; otherwise the extension result wins unless it is "other", then the MIME result, then the name result |
| Classifier.ClassifySound | src/core/ai_classifier.py:79-91 | a category other than "other" is chosen only if its rule matches the lowered extension, a MIME prefix or a lowered keyword of the name |
| Classifier.FallbackNoNameMatch | src/core/ai_classifier.py:117-127 | under the fallback mapping, lookup by name always gives "other" because no rule has keywords |
| Classifier.PsdExtensionIsDesign | src/core/ai_classifier.py:100-106 | ".psd" is "design" by extension |
| Classifier.PsdIsDesign | src/core/ai_classifier.py:79-91 | a .psd file with MIME image/vnd.adobe.photoshop is "design" |
| Classifier.PhotoshopMimeIsMedia | src/core/ai_classifier.py:108-115 | by MIME type alone, image/vnd.adobe.photoshop is "media", although its extension is design's |
| Classifier.ImageMimeIsMedia | src/core/ai_classifier.py:108-115 | under the fallback mapping, every MIME type starting with "image/" is "media" |
| Classifier.UnknownExtensionIsOther | src/core/ai_classifier.py:100-106 | ".xyz" gives "other" |
| Classifier.TextJavascriptIsOther | src/core/ai_classifier.py:108-115 | text/javascript matches no fallback pattern and gives "other" |
| Classifier.MissingNameIsOther | src/core/ai_classifier.py:77-98 | a descriptor without a name is "other" even when its extension matches |
| Classifier.Select | src/core/ai_classifier.py:138-140 | a category's bucket is never longer than the input |
| Classifier.SelectSound | src/core/ai_classifier.py:138-140 | a bucket holds only input descriptors of its class |
| Classifier.SelectComplete | src/core/ai_classifier.py:138-140 | every input descriptor of a class is in that class's bucket |
| Classifier.SelectSnoc | src/core/ai_classifier.py:138-140 | appending a descriptor extends only its own class's bucket, at the end, so input order is kept |
| Classifier.BucketsFor | src/core/ai_classifier.py:131-140 | there is one bucket per key, in key order, each holding that key's descriptors |
| Classifier.BucketsForKeys | src/core/ai_classifier.py:133-135 | the bucket keys are the given keys, in order |
| Classifier.CoveredIff | src/core/ai_classifier.py:137-140 | the front-to-back check passes iff every descriptor's class is a key |
| Classifier.SizeSumTotal | src/core/ai_classifier.py:129-142 | with distinct keys covering every class, the bucket lengths add up to the number of inputs |
| Classifier.GroupSizes | src/core/ai_classifier.py:129-142 | a successful grouping holds every input once: its bucket lengths add up to the number of inputs |
| Classifier.GroupComplete | src/core/ai_classifier.py:137-140 | a successful grouping puts each input in the bucket whose key is its class |
| Classifier.GroupSound | src/core/ai_classifier.py:137-140 | in a successful grouping, each bucket member is an input of that bucket's class |
| Classifier.AppendStep | src/core/ai_classifier.py:139-140 | appending the next descriptor to its class's bucket turns the buckets of the inputs so far into the buckets of one more input |
| Classifier.AppendToBucket | src/core/ai_classifier.py:139-140 | one append keeps the buckets equal to the grouping of the inputs seen so far |
| Classifier.GroupFails | src/core/ai_classifier.py:139-140 | a descriptor whose class is not a key makes the grouping fail (the KeyError) |
| Classifier.GroupSucceeds | src/core/ai_classifier.py:137-142 | when every class is a key, the grouping succeeds with the key-by-key buckets |
| Classifier.EmptyBuckets | src/core/ai_classifier.py:133-135 | the initial dictionary has one empty bucket per key |
| Classifier.GroupBy | src/core/ai_classifier.py:137-142 | the append loop computes the grouping, or the failure |
| Classifier.BatchBucketsSpec | src/core/ai_classifier.py:129-142 | batch_classify fails exactly when some descriptor is "other" and "other" is not a key; otherwise the bucket keys are the mapping's keys and each bucket is that key's selection |
| Classifier.BatchSizes | src/core/ai_classifier.py:129-142 | when batch_classify returns, its bucket lengths add up to the number of descriptors |
| Classifier.BatchComplete | src/core/ai_classifier.py:138-140 | each descriptor is in the bucket of the category classify_file chose for it |
| Classifier.BatchSound | src/core/ai_classifier.py:138-140 | each bucket holds only input descriptors that classify_file sends to its key |
| Classifier.AIClassifier.constructor | src/core/ai_classifier.py:33-73 | the mapping is the loaded one, or the fallback when loading failed |
| Classifier.AIClassifier.BatchClassify | src/core/ai_classifier.py:129-142 | the method's result is the batch grouping of the object's mapping |
| Classifier.AIClassifier.UpdateCategoryMappings | src/core/ai_classifier.py:144-146 | the mapping becomes its dict.update with the new rules, and keys stay distinct |
| Dicts.Keys | src/core/ai_classifier.py:134 | the keys are the entries' first components, in order |
| Dicts.Get | src/core/ai_classifier.py:140 | a key is found iff it is among the keys, and its value is the one at its first occurrence |
| Dicts.GetAt | src/core/ai_classifier.py:140 | with distinct keys, looking up entry i's key gives entry i's value |
| Dicts.Set | src/core/ai_classifier.py:140 | d[k] = v keeps the key order and appends a new key at the end |
| Dicts.SetGet | src/core/ai_classifier.py:140 | after d[k] = v, k maps to v and every other key keeps its value |
| Dicts.SetDistinct | src/core/ai_classifier.py:140 | d[k] = v never repeats a key |
| Dicts.SetAt | src/core/ai_classifier.py:140 | on a present key, d[k] = v replaces that entry in place and leaves all others |
| Dicts.Update | src/core/ai_classifier.py:146 | dict.update: each entry of the new mapping is set into the old one, in the new mapping's order |
| Dicts.UpdateKeys | src/core/ai_classifier.py:146 | after update, the keys are the old keys followed by the new keys in their order |
| Dicts.UpdateGet | src/core/ai_classifier.py:146 | after update, the given keys take the new rules wholesale and every other key keeps its rule |
| Dicts.UpdateDistinct | src/core/ai_classifier.py:146 | update never repeats a key |
| Text.LowerChar | src/core/ai_classifier.py:102 | a lowered character is not upper case, and other characters are unchanged |
| Text.Lower | src/core/ai_classifier.py:102 | lowering keeps the length and lowers each character |
| Text.LowerAppend | src/core/ai_classifier.py:119 | lowering distributes over concatenation |
| Text.LowerIdempotent | src/core/ai_classifier.py:119 | lowering twice is lowering once |
| Text.ContainsIff | src/core/ai_classifier.py:124 | the substring test holds iff the substring occurs at some index |
| Text.NotPrefixAt | src/core/ai_classifier.py:113 | two strings that differ at an index inside both are not prefix-related |
| Text.RFind | src/core/file_analyzer.py:118 | the result is the index of the last occurrence, or -1 when there is none |
| Text.SplitExt | src/core/file_analyzer.py:118 | stem plus extension is the name; a non-empty extension is a dot, no further dot, and a stem not made only of dots; with no extension, every dot has only dots before it |
| Text.SplitExtAt | src/core/file_analyzer.py:118 | the extension starts at the last dot when some non-dot character comes before it |
| Text.SplitExtNone | src/core/file_analyzer.py:118 | when every dot has only dots before it, the extension is empty |
| Text.SplitExtDot | src/core/file_analyzer.py:118 | a stem not starting with a dot, a dot and a dot-free tail split into that stem and the dotted tail |
| Text.SplitExtLeadingDot | src/core/file_analyzer.py:118 | a name whose only dot is its first character has no extension |
| Text.SplitExtLower | src/core/file_analyzer.py:118 | lowering commutes with splitext |
| Text.SuffixName | src/core/folder_manager.py:53-55 | the timestamped name is one separator plus the timestamp longer than the name, and never equals it |
| Analyzer.MimeTable | src/core/file_analyzer.py:22-44 | the analyser's table of 21 extensions and their MIME types, in source order |
| Analyzer.LowerExtension | src/core/file_analyzer.py:170 | the extension is empty or a dot followed by no further dot, with no upper-case letter |
| Analyzer.GetMimeType | src/core/file_analyzer.py:168-190 | the table entry for the lowered extension wins, then the guess, then "application/" plus the extension without its dot, then application/octet-stream |
| Analyzer.MimeCaseInsensitive | src/core/file_analyzer.py:170-174 | the file name's letter case never changes the MIME type |
| Analyzer.PdfExtension | src/core/file_analyzer.py:170 | "Report.PDF" has extension ".pdf" |
| Analyzer.UpperCasePdf | src/core/file_analyzer.py:170-174 | "Report.PDF" is application/pdf |
| Analyzer.SqliteExtension | src/core/file_analyzer.py:170 | "db.Backup.SQLite" has extension ".sqlite" |
| Analyzer.UnknownExtensionMime | src/core/file_analyzer.py:180-182 | an extension without a table entry or a guess gives "application/sqlite" from the last extension |
| Analyzer.DotFileMime | src/core/file_analyzer.py:183-184 | ".bashrc" has no extension and gives application/octet-stream |
| Analyzer.DigitsEnd | src/core/file_analyzer.py:47 | `\d+` runs greedily to the first non-digit |
| Analyzer.DottedEnd | src/core/file_analyzer.py:47 | `(\.\d+)*` stops where no dot followed by a digit comes next |
| Analyzer.DottedEndRun | src/core/file_analyzer.py:47 | every character passed over is a digit or a dot followed by a digit |
| Analyzer.NumberEnd | src/core/file_analyzer.py:47 | a number matches iff a digit comes first; the match is a dotted number and is maximal |
| Analyzer.DottedSlice | src/core/file_analyzer.py:47 | the greedy number match is a dotted number |
| Analyzer.DotStepsSlice | src/core/file_analyzer.py:47 | digits and dots each followed by a digit form a dotted number |
| Analyzer.SpacesEnd | src/core/file_analyzer.py:47 | `\s*` runs to the first non-space |
| Analyzer.VersionWordIff | src/core/file_analyzer.py:47 | the case-insensitive "version" test is lowering seven characters |
| Analyzer.VersionChars | src/core/file_analyzer.py:47 | seven characters are "version" iff they spell it letter by letter |
| Analyzer.MatchAt | src/core/file_analyzer.py:47 | a match at i spans a non-empty number after i |
| Analyzer.MatchAtIff | src/core/file_analyzer.py:47 | the scanner matches at k exactly when a version token starts at k |
| Analyzer.FirstHit | src/core/file_analyzer.py:211 | a position found lies in the searched range and is a hit |
| Analyzer.FirstHitLeftmost | src/core/file_analyzer.py:211 | no position before the one found is a hit; when none is found, no position in the range is |
| Analyzer.SearchFrom | src/core/file_analyzer.py:211 | a position re.search reports lies at or after the start and the pattern matches there |
| Analyzer.SearchFromLeftmost | src/core/file_analyzer.py:211 | the reported position is the leftmost match; when none is reported, the pattern matches nowhere from the start on |
| Analyzer.SearchFromAt | src/core/file_analyzer.py:211 | a matching position with no match before it is the one found |
| Analyzer.ExtractVersionInfo | src/core/file_analyzer.py:202-223 | is_version holds iff a version number is reported, and that number is a dotted number |
| Analyzer.VersionNumberDotted | src/core/file_analyzer.py:214 | the reported number matches `\d+(\.\d+)*` |
| Analyzer.IsVersionIff | src/core/file_analyzer.py:211-213 | is_version holds iff some position starts a version token |
| Analyzer.VersionNumber | src/core/file_analyzer.py:211-214 | the number of the leftmost version match: group 1 or group 3, whichever took part; none without a match |
| Analyzer.DraftFlagIff | src/core/file_analyzer.py:217-218 | is_draft holds iff "draft" or "taslak" occurs in the lowered name |
| Analyzer.FinalFlagIff | src/core/file_analyzer.py:220-221 | is_final holds iff "final" or "son" occurs in the lowered name |
| Analyzer.NotContainsChar | src/core/file_analyzer.py:48-49 | a string that lacks one of a word's characters does not contain the word |
| Analyzer.DraftVersion | src/core/file_analyzer.py:211-214 | "Draft_v2.txt" reports version "2" |
| Analyzer.ProjectDraftNumber | src/core/file_analyzer.py:211-214 | "Project_Draft_v2.docx" reports version "2" |
| Analyzer.ProjectDraftMatch | src/core/file_analyzer.py:47 | in "Project_Draft_v2.docx" the token at index 14 is "v2" |
| Analyzer.ProjectDraftNoMatchLow | src/core/file_analyzer.py:47 | no token starts in "Project" |
| Analyzer.ProjectDraftNoMatchHigh | src/core/file_analyzer.py:47 | no token starts in "_Draft_" |
| Analyzer.ProjectDraftFlags | src/core/file_analyzer.py:217-221 | "Project_Draft_v2.docx" is a draft and is not final |
| Analyzer.ProjectDraftExample | src/core/file_analyzer.py:202-223 | "Project_Draft_v2.docx" gives is_version true, version "2", is_draft true, is_final false |
| Analyzer.PersonIsFinal | src/core/file_analyzer.py:220-221 | a name containing "person" is final, because it contains "son" |
| Analyzer.SpacedVersionExample | src/core/file_analyzer.py:47 | "Version 2.1.3b" reports "2.1.3" |
| Analyzer.IsTextLike | src/core/file_analyzer.py:240-243 | the MIME types whose start is read for keywords: text/*, application/pdf, application/msword and the .docx type |
| Analyzer.LongWords | src/core/file_analyzer.py:250 | the kept words are exactly the lowered tokens longer than three characters |
| Analyzer.Dedupe | src/core/file_analyzer.py:251 | the result has no duplicates and the same elements as its input |
| Analyzer.FilterKeywords | src/core/file_analyzer.py:250-251 | keywords are distinct, at most 20, and each a lowered long token; below 20, every lowered long token is kept |
| Analyzer.ExtractKeywords | src/core/file_analyzer.py:236-258 | no keywords unless the MIME type is text-like and the file could be read; otherwise the filtered tokens |
| Analyzer.KeywordsShape | src/core/file_analyzer.py:240-251 | every keyword list is distinct, at most 20 long, and holds only lower-case words longer than three characters |
| Analyzer.AnalyzeFile | src/core/file_analyzer.py:111-156 | a descriptor exists iff the file exists and is at most 100 MiB; keywords exist iff it is under 10 MiB; path, name and size are the file's own; the extension is the lowered splitext suffix, the MIME type is get_mime_type's, the version record is extract_version_info of the name, the dates are the file's timestamps, and the keywords are extract_keywords of that MIME type and the tokens read |
| Analyzer.AnalyzedExtension | src/core/file_analyzer.py:117-118 | the descriptor's extension is the lowered splitext suffix of the file name: empty or a dot with no further dot, no upper-case letter, and the name ends with it up to case |
| Analyzer.SizeBoundary | src/core/file_analyzer.py:113 | a file of exactly 100 MiB is kept, one byte more is skipped, and one of exactly 10 MiB has no keywords |
| Analyzer.ScanNamesMembers | src/core/file_analyzer.py:86-93 | a descriptor is collected for a folder iff it analyses one of the folder's file names |
| Analyzer.Scan | src/core/file_analyzer.py:85-93 | the analyses of the walk's files, folder by folder and name by name, with the rejected files left out |
| Analyzer.ScanMembers | src/core/file_analyzer.py:82-99 | the scan holds exactly the successful analyses of walked files |
| Analyzer.ScanNamesSize | src/core/file_analyzer.py:86-93 | a folder yields at most one descriptor per file name |
| Analyzer.ScanSize | src/core/file_analyzer.py:82-99 | the scan yields at most one descriptor per walked file |
| Analyzer.ScanCovers | src/core/file_analyzer.py:85-93 | over a walk that visits every folder under the scanned folder once and lists exactly the files in each, the scan holds the descriptor of every file under that folder of at most 100 MiB, and only descriptors of such files |
| Analyzer.ScanCoversBy | src/core/file_analyzer.py:85-93 | the same coverage for any analysis that accepts exactly the files of at most 100 MiB |
| Analyzer.ScanDirectory | src/core/file_analyzer.py:70-99 | the walk loop returns the scan of the walk: the in-order descriptors of the walked files, leaving out the rejected ones |
| Analyzer.ScanFolder | src/core/file_analyzer.py:86-93 | the inner loop returns the in-order descriptors of one folder's files, leaving out the rejected ones |
| FileSystem.Dirname | src/core/folder_manager.py:93 | a path is its dirname plus its last name; the root is its own dirname |
| FileSystem.AncestorClosed | src/core/folder_manager.py:94-95 | in a well-formed tree, every prefix of an existing path exists and is a folder |
| FileSystem.NothingUnder | src/core/folder_manager.py:182-183 | nothing lies under a path that does not exist |
| FileSystem.FileIsLeaf | src/core/folder_manager.py:123 | a file has no children |
| FileSystem.Prefixes | src/core/folder_manager.py:95 | the set holds exactly the prefixes of the path |
| FileSystem.AddDirs | src/core/folder_manager.py:95 | adding folders keeps every node and adds only prefixes of the path, as folders |
| FileSystem.MakeDirsFs | src/core/folder_manager.py:38 | makedirs succeeds iff the path is new and its existing prefixes are folders; it then creates the path as a folder, keeps every node, adds only prefixes, and keeps the tree well-formed |
| FileSystem.RemoveFileFs | src/core/folder_manager.py:100 | os.remove succeeds iff the path is a file, and then removes just that node |
| FileSystem.RemoveDirFs | src/core/folder_manager.py:123-124 | rmdir succeeds iff the path is an empty non-root folder, and then removes just that node |
| FileSystem.Prune | src/core/folder_manager.py:183 | pruning removes the path and everything under it, and nothing else |
| FileSystem.Rebase | src/core/folder_manager.py:171 | the rebased tree holds under dst exactly the nodes under src, unchanged |
| FileSystem.RemoveTreeFs | src/core/folder_manager.py:183 | rmtree succeeds iff the path is a non-root folder, and then removes exactly its subtree |
| FileSystem.CopyTreeFs | src/core/folder_manager.py:171 | copytree succeeds iff src is a folder, dst is new and can be created, and dst does not lie under an entry src already has; the copy then holds exactly src's subtree as it was, every old node is kept, and every new node is a missing parent of dst or lies under dst |
| FileSystem.MoveFs | src/core/folder_manager.py:58 | the move succeeds exactly when src exists and is not the root, and it is src itself, or its destination (dst/basename(src) when dst is a folder) is free when dst is a folder, and a file finds the destination's folder, or a folder is not moved into itself and its destination can be created; a successful move leaves src and keeps all unrelated nodes; a moved folder's whole subtree reappears node for node under the destination, and nothing else lies there; every new node is an ancestor of the destination or lies under it; a failed move changes nothing; the tree stays well-formed |
| FileSystem.MoveIntoTakenName | src/core/folder_manager.py:58 | a move into a folder that already holds the name fails and changes nothing |
| FileSystem.MoveIntoOwnParent | src/core/folder_manager.py:151 | moving a path into its own parent folder fails and changes nothing |
| FileSystem.MoveFileFs | src/core/folder_manager.py:107 | renaming a file succeeds iff the destination's folder exists, and then moves the file's node |
| FileSystem.MoveDirFs | src/core/folder_manager.py:151 | moving a folder succeeds iff the destination is outside it and can be created; on a well-formed tree every node of the folder's subtree then sits at the same relative path under the destination, and nothing else lies under the destination; every new node is an ancestor of the destination or lies under it |
| FileSystem.MoveDirContents | src/core/folder_manager.py:151 | on a well-formed tree, the tree a folder move builds holds every node of the folder at the same relative path under the destination, and under the destination nothing but those nodes |
| FileSystem.Disk.constructor | src/core/folder_manager.py:1-2 | the file system that the os and shutil calls act on starts as the given well-formed tree |
| FileSystem.Disk.MakeDirs | src/core/folder_manager.py:38 | the disk changes as makedirs says |
| FileSystem.Disk.Remove | src/core/folder_manager.py:100 | the disk changes as os.remove says |
| FileSystem.Disk.RemoveDir | src/core/folder_manager.py:123-124 | the disk changes as listdir plus rmdir say |
| FileSystem.Disk.RemoveTree | src/core/folder_manager.py:183 | the disk changes as rmtree says |
| FileSystem.Disk.CopyTree | src/core/folder_manager.py:171 | the disk changes as copytree says |
| FileSystem.Disk.Move | src/core/folder_manager.py:58 | the disk changes as shutil.move says |
| FolderManager.ConflictTarget | src/core/folder_manager.py:48-55 | the target lies in the category folder, and it is category/name exactly when that name is free; otherwise it is the timestamped name |
| FolderManager.EnsureFolders | src/core/folder_manager.py:35-39 | the first loop: each missing base/category is made with makedirs in key order, and the first failure ends the loop with the disk as it stands |
| FolderManager.EnsureFoldersExist | src/core/folder_manager.py:35-39 | after the folder loop succeeds, base/category exists for every key, including keys with empty lists |
| FolderManager.EnsureFoldersKeep | src/core/folder_manager.py:35-39 | the folder loop keeps every node, adds only prefixes of category folders, and keeps the tree well-formed |
| FolderManager.EnsureFoldersStop | src/core/folder_manager.py:33-39 | after the first failed makedirs, later keys change nothing |
| FolderManager.EnsureFoldersIdempotent | src/core/folder_manager.py:37 | running the folder loop again after it succeeded changes nothing |
| FolderManager.AlreadyPresent | src/core/folder_manager.py:37 | when every category folder exists, the folder loop succeeds and changes nothing |
| FolderManager.MoveOne | src/core/folder_manager.py:46-64 | one descriptor: a path is moved with shutil.move to its conflict target and reported as success or error; a missing path appends the previous source_path to the errors, or ends both loops when there is none |
| FolderManager.Organize | src/core/folder_manager.py:29-69 | organize_files: the folder loop, then the move loops over the categories in order; both lists stay empty when the folder loop fails |
| FolderManager.Tagged | src/core/folder_manager.py:42-45 | each descriptor of a category is paired with that category, in order |
| FolderManager.MoveAllSnoc | src/core/folder_manager.py:45-64 | the flat loop handles its last entry after all the others |
| FolderManager.MoveAllTagged | src/core/folder_manager.py:42-64 | the inner loop over one category is the flat loop over its tagged descriptors |
| FolderManager.MoveCategoriesFlat | src/core/folder_manager.py:42-64 | the nested loops visit the descriptors category by category, in order |
| FolderManager.EntriesTotal | src/core/folder_manager.py:42-45 | the loops visit as many descriptors as the buckets hold |
| FolderManager.MoveFilesStopped | src/core/folder_manager.py:62-67 | once the run has stopped, no further descriptor changes anything |
| FolderManager.MoveFilesStopAt | src/core/folder_manager.py:62-67 | once some descriptors of a category have stopped the run, the rest of that category changes nothing |
| FolderManager.MoveCategoriesStopAt | src/core/folder_manager.py:62-67 | once some categories have stopped the run, the remaining categories change nothing |
| FolderManager.MoveOneEffect | src/core/folder_manager.py:46-64 | a descriptor with a path adds that path to exactly one of success or error; one without a path re-reports the previous source, or stops the run if there is none |
| FolderManager.ReportOne | src/core/folder_manager.py:59-63 | adding the source to one list adds it once to the two lists together |
| FolderManager.MoveAllAccounting | src/core/folder_manager.py:42-67 | the loop stops iff the very first descriptor has no path, and then reports nothing; otherwise success and error together have one entry per descriptor |
| FolderManager.MoveAllReportsSources | src/core/folder_manager.py:47-63 | when every descriptor has a path, success and error together report each source once |
| FolderManager.OrganizeAccounting | src/core/folder_manager.py:29-69 | both lists are empty if a category folder cannot be created, with the disk as that loop left it, or if the first descriptor has no path; otherwise there is one entry per descriptor, and each source is reported once |
| FolderManager.MoveAllWellFormed | src/core/folder_manager.py:42-64 | the move loop keeps the tree well-formed |
| FolderManager.OrganizeWellFormed | src/core/folder_manager.py:29-69 | organize_files keeps the tree well-formed |
| FolderManager.RenamedNotPrefix | src/core/folder_manager.py:55 | the renamed target, or a path one level below it, is never a prefix of the original target |
| FolderManager.MoveOneKeepsExisting | src/core/folder_manager.py:52-58 | a file already at the category target is never overwritten: it keeps its node |
| FolderManager.MakeCategoryFolders | src/core/folder_manager.py:35-39 | the disk changes as the folder loop says |
| FolderManager.MakeCategoryFolder | src/core/folder_manager.py:36-38 | one more category folder changes the disk as the folder loop over one more key says |
| FolderManager.MoveCategoryFiles | src/core/folder_manager.py:45-64 | the disk and the results change as the inner loop over one category says, and the run stops as it says |
| FolderManager.MoveCategoriesOnDisk | src/core/folder_manager.py:42-64 | the disk and both lists end as the nested move loops say |
| FolderManager.MoveEntry | src/core/folder_manager.py:46-64 | the disk and the results change as one descriptor's step says |
| FolderManager.OrganizeFiles | src/core/folder_manager.py:29-69 | the disk and both lists end as organize_files says |
| FolderManager.MoveFileFsSpec | src/core/folder_manager.py:89-113 | move_file: makedirs of a missing target folder, then os.remove of an existing target when overwriting or the timestamped name when not, then shutil.move; the first failing step ends it with false |
| FolderManager.MoveFileFresh | src/core/folder_manager.py:89-109 | a file moved to a new name whose folder exists is renamed: it leaves the source and sits at the target |
| FolderManager.MoveFileKeepsTarget | src/core/folder_manager.py:98-104 | without overwrite, an existing target keeps its node |
| FolderManager.MoveFileOverwrites | src/core/folder_manager.py:98-100 | with overwrite, an existing file at the target is replaced by the source file |
| FolderManager.MoveFile | src/core/folder_manager.py:89-113 | the disk and the result change as move_file says |
| FolderManager.Cleanup | src/core/folder_manager.py:119-125 | cleanup_empty_folders: each folder of the walk, in order, is removed and recorded when os.listdir finds it empty; one that cannot be removed is skipped |
| FolderManager.CleanupRemoves | src/core/folder_manager.py:119-125 | cleanup removes exactly the folders it reports, each once, each a non-root folder the walk visited; no other node changes; the tree stays well-formed |
| FolderManager.ChildOnPath | src/core/folder_manager.py:123 | a node strictly under a folder has a child of that folder on its way up |
| FolderManager.CleanupPrefix | src/core/folder_manager.py:119-125 | in a bottom-up walk, each folder visited so far is removed iff it holds no file |
| FolderManager.ChildrenIffFiles | src/core/folder_manager.py:123 | when a folder is visited, it has a child iff some file lies under it |
| FolderManager.CleanupCollapses | src/core/folder_manager.py:115-133 | a bottom-up walk removes exactly the folders under root that hold no file, however deeply nested, and keeps root |
| FolderManager.CleanupEmptyFolders | src/core/folder_manager.py:115-133 | the disk and the removed list end as the cleanup says |
| FolderManager.UndoOne | src/core/folder_manager.py:140-161 | one history entry: a missing target re-reports the previous source, if any; a missing source or a target that is gone is an error; otherwise the source's folder is made if missing and shutil.move brings the file back, reported as success or error |
| FolderManager.UndoAll | src/core/folder_manager.py:139-161 | undo_move: the entries in the order they are listed |
| FolderManager.UndoAccounting | src/core/folder_manager.py:139-161 | undo reports one path per entry, except for the entries before the first one with a 'target' key |
| FolderManager.LeadingSnoc | src/core/folder_manager.py:159-160 | the count of leading entries without a target only grows while no entry has one |
| FolderManager.UndoRestoresMove | src/core/folder_manager.py:141-152 | undoing a move of a file to a fresh name puts it back and restores the disk, reporting success |
| FolderManager.UndoIntoTakenFolder | src/core/folder_manager.py:150-160 | when the recorded source is now a folder holding a node named like the file, the undo is an error and the disk is unchanged |
| FolderManager.UndoMove | src/core/folder_manager.py:135-163 | the disk and both lists end as undo_move says |
| FolderManager.ReplayWellFormed | src/core/folder_manager.py:139 | replaying clean moves keeps the tree well-formed |
| FolderManager.UndoReversedRestores | src/core/folder_manager.py:139 | undoing clean moves newest first restores the disk, with every move reported as undone |
| FolderManager.CleanMoveRenames | src/core/folder_manager.py:151 | a clean file move renames the file |
| FolderManager.ChainedMovesNotUndone | src/core/folder_manager.py:139 | with a file moved a to b and then b to c, undo as written leaves it at b; newest first brings it back to a |
| FolderManager.SmallTree | src/core/folder_manager.py:139 | a root folder with one file in it is well-formed |
| FolderManager.CreateLayout | src/core/folder_manager.py:71-87 | create_folder_structure: each missing folder is made in dictionary order and a nested dictionary is created inside it; a failing makedirs, or a structure that is not a dictionary, gives false; as written a nested result is dropped, and with propagation it becomes the result |
| FolderManager.CreateEntries | src/core/folder_manager.py:74-83 | the loop over the first n entries of one structure, in dictionary order; after the first failure the later entries change nothing |
| FolderManager.LayoutKeeps | src/core/folder_manager.py:71-87 | creating a folder structure keeps every node and the tree invariant |
| FolderManager.EntriesKeep | src/core/folder_manager.py:74-81 | the structure loop keeps every node and the tree invariant |
| FolderManager.EntriesStop | src/core/folder_manager.py:74-87 | after a failed entry, later entries change nothing |
| FolderManager.LayoutComplete | src/core/folder_manager.py:71-87 | with nested failures reported, success means every folder the structure names exists |
| FolderManager.EntriesComplete | src/core/folder_manager.py:74-83 | with nested failures reported, after a successful loop every entry's folders exist |
| FolderManager.NestedFailureReported | src/core/folder_manager.py:80-83 | as written, a file where a nested folder must go still gives true; with nested failures reported it gives false |
| FolderManager.CreateFolderStructure | src/core/folder_manager.py:71-87 | the disk and the result change as create_folder_structure says |
| FolderManager.BackupPath | src/core/folder_manager.py:169 | f"{path}_backup_{timestamp}": the last name of the path extended by "_backup_" and the timestamp |
| FolderManager.BackupSibling | src/core/folder_manager.py:169 | the backup sits beside the path, in the same folder, and neither lies inside the other |
| FolderManager.BackupFs | src/core/folder_manager.py:165-177 | create_backup: copytree to the backup path, giving that path on success and None on failure |
| FolderManager.BackupCopies | src/core/folder_manager.py:165-177 | a backup is made iff the path is a folder and the backup name is free; it then holds a node-for-node copy of the path's subtree as it was, every old node is kept, and no node is added outside the backup |
| FolderManager.BackupCreatable | src/core/folder_manager.py:169-171 | a free backup name can be created by copytree and does not lie under an entry of the path |
| FolderManager.CreateBackup | src/core/folder_manager.py:165-177 | the disk and the result change as create_backup says |
| FolderManager.RestoreFs | src/core/folder_manager.py:179-190 | restore_backup: rmtree of an existing original, then copytree of the backup to it; the first failure gives false |
| FolderManager.RestoreReplaces | src/core/folder_manager.py:179-190 | restoring into an existing non-root folder, or into a path that can be created, apart from the backup, succeeds; the original then holds exactly the backup's subtree, every node outside the original (the backup among them) is kept, and every new node is an ancestor of the original or lies under it |
| FolderManager.PrefixesComparable | src/core/folder_manager.py:182-185 | two prefixes of one path are prefix-related |
| FolderManager.BackupRestoreRoundTrip | src/core/folder_manager.py:165-190 | back up, change anything but the backup, then restore: the path's subtree is what it was when backed up |
| FolderManager.RestoreCopy | src/core/folder_manager.py:179-190 | restoring from a folder that still holds a copy of the original's old subtree brings that subtree back |
| FolderManager.RestoreBackup | src/core/folder_manager.py:179-190 | the disk and the result change as restore_backup says |

## Left out

- Failure causes: the file system model has no permissions, read-only or immutable files, I/O or disk-full errors, symlinks, or cross-device moves that fail partway through a copy; an operation fails only for the path conditions the model states. The "succeeds exactly when", "iff" and "succeeds" statements of FileSystem.MoveFs, FolderManager.BackupCopies, FolderManager.MoveFileFresh, FolderManager.UndoRestoresMove, FolderManager.RestoreReplaces and FolderManager.BackupRestoreRoundTrip hold under that abstraction; on a real disk any of these causes can make the call fail as well.
- Logging: every `setup_logging` and `logging.*` call is left out. None of them changes a result.
- Mapping file I/O: reading and writing `category_mappings.json` is not part of this
  model. The constructor takes the loaded mapping, or None when loading failed.
- Saving after `update_category_mappings` is not modelled. The in-memory merge stands either way.
- Platform services are parameters of `Analyzer.Env`:
  - `mimetypes.guess_type`;
  - `getmtime`/`getctime`, taken as raw integer timestamps;
  - whether the file opens;
  - UTF-8 decoding and `\b\w+\b` tokenising. Only the filter, dedupe and cap are modelled.
- Analyzer.FilterKeywords: `list(set(words))[:20]` has no defined order. The model keeps first
  occurrences. The contract states only what holds for every order.
- os.walk is a parameter: a sequence of (folder, file names) for `scan_directory`, and a
  sequence of folders for `cleanup_empty_folders`. The methods take any such sequence; the
  walk's folders, names and order are not derived from the disk. Analyzer.ScanCovers states
  the scan's coverage for a walk that visits every folder under the scanned one and lists
  exactly its files (Analyzer.Covers). FolderManager.CleanupCollapses assumes a bottom-up walk
  that covers the tree, as `topdown=False` gives.
- Text.Lower folds only ASCII letters, `\d` matches only the ASCII digits, and `\s` only the
  ASCII whitespace of `str.isspace` (tab to carriage return, 0x1C to 0x1F, and space). Python
  folds and matches all of Unicode.
- Analyzer.AnalyzeFile: a path that names a folder is treated as not analysable. Python would
  report the folder's own size, and `scan_directory` never passes one.
- `get_file_info` is not modelled. It is an `os.stat` wrapper that nothing in the core depends on.
- `datetime.now()` is a timestamp string passed to each call. One string serves every
  conflict in an `organize_files` call, as happens within one second.
- FolderManager.MoveOneKeepsExisting: a timestamped name that also exists is not proved safe.
  In the code, `shutil.move` may then overwrite it within the same second.
- Paths are absolute, from the root. A bare relative target, whose dirname is "", is not
  expressible.
- FileSystem.CopyTreeFs: `shutil.copytree` lists src's entries before it creates dst. A dst
  inside src under a name src does not have yet therefore gets a copy of src as it was, as
  in the model. A dst under an entry src already has is different: the real call meets its own
  copy again and again until a call fails, and leaves a partial copy behind. The model
  reports that failure but leaves the tree unchanged.
- FileSystem.RemoveTreeFs: `shutil.rmtree` of the root is refused, so restoring a backup onto
  the root fails. FolderManager.BackupRestoreRoundTrip is stated for paths other than the root.
- FolderManager.BackupCopies: a path given with a trailing slash, whose backup lands inside
  it, is not expressible.
- FolderManager.OrganizeAccounting states which sources are reported as a multiset. It does
  not state the order in which success and error entries interleave.
- `organize_files` returns no move history, in the code as in the model. There is
  therefore no lemma stating that undoing organize_files restores the disk.
  FolderManager.UndoReversedRestores states it for a history of clean moves.
- `undo_move` walks the history oldest first in the code. Undoing chained moves needs newest
  first. The model follows the code, and the first row under Findings shows the difference.
- The `FolderManager` class has no state of its own. Its operations are methods taking the
  `Disk`.
- Python's `dict` is an association list with distinct keys (module `Dicts`).
- The tests at tests/test_ai_classifier.py:51 and 66 expect `None` for unknown inputs; the
  code returns "other". The test at line 63 expects "code" for text/javascript; the code gives
  "other". The model follows the code (Classifier.UnknownExtensionIsOther,
  Classifier.TextJavascriptIsOther).
- The grouping loop in `src/main.py`, the PyQt user interface, the launcher and the logo
  drawing are out of scope.

## Findings

| source | as written | input that shows it | evidently intended | confidence | as-written member | corrected member |
|---|---|---|---|---|---|---|
| src/core/folder_manager.py:139 | `undo_move` undoes the history oldest entry first | a file moved a→b and then b→c: the first entry finds nothing at b, the second moves c back to b, and the file never returns to a | undo newest first, so that chained moves are undone and the file returns to a | not executed | FolderManager.ChainedMovesNotUndone | FolderManager.UndoReversedRestores |
| src/core/folder_manager.py:80-83 | the result of the recursive `create_folder_structure` call is dropped, so the caller returns True | a file at a and the structure {a: {c: ...}}: the nested makedirs of a/c fails, yet the call returns True and a/c does not exist | propagate the nested result, so that True means every named folder exists | not executed | FolderManager.NestedFailureReported | FolderManager.LayoutComplete |
