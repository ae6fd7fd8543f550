/**
 * The rule-based classifier: a descriptor's extension, MIME type and name are each
 * looked up first-match in an ordered category mapping, and the three answers are
 * combined by a fixed priority.
 */
module Classifier {
  import opened Wrappers
  import opened Text
  import opened Dicts
  import opened Descriptors

  /** One category's rule; every list may be absent from the mapping file. */
  datatype Rule = Rule(
    name: Option<string>,
    extensions: Option<seq<string>>,
    mimeTypes: Option<seq<string>>,
    keywords: Option<seq<string>>)

  /** Category key to rule, in the mapping's iteration order. */
  type Mapping = Dict<Rule>

  const Other: string := "other"

  /** The mapping used when category_mappings.json cannot be loaded. */
  function FallbackMappings(): (m: Mapping)
    ensures |m| == 6
    ensures m[0].0 == "document" && m[1].0 == "media" && m[2].0 == "code"
    ensures m[3].0 == "design" && m[4].0 == "archive" && m[5].0 == Other
    ensures forall i :: 0 <= i < |m| ==> m[i].1.keywords.None?
  {
    [ ("document", Rule(Some("Belgeler"),
        Some([".pdf", ".doc", ".docx", ".txt", ".rtf", ".xls", ".xlsx", ".ppt", ".pptx"]),
        Some(["application/pdf", "application/msword", "text/plain"]), None)),
      ("media", Rule(Some("Medya"),
        Some([".jpg", ".jpeg", ".png", ".gif", ".mp4", ".mp3", ".wav"]),
        Some(["image/", "video/", "audio/"]), None)),
      ("code", Rule(Some("Kod"),
        Some([".py", ".js", ".html", ".css", ".java", ".cpp", ".c", ".php"]),
        Some(["text/x-python", "application/javascript", "text/html"]), None)),
      ("design", Rule(Some("Tasar\U{131}m"),
        Some([".psd", ".ai", ".svg", ".sketch", ".fig", ".xd"]),
        Some(["image/vnd.adobe.photoshop", "application/postscript", "image/svg+xml"]), None)),
      ("archive", Rule(Some("Ar\U{15F}iv"),
        Some([".zip", ".rar", ".7z", ".tar", ".gz"]),
        Some(["application/zip", "application/x-rar-compressed", "application/x-7z-compressed"]), None)),
      ("other", Rule(Some("Di\U{11F}er"), Some([]), Some([]), None)) ]
  }

  /** The fallback mapping's keys, in order, with no key twice. */
  lemma FallbackKeys()
    ensures Keys(FallbackMappings()) == ["document", "media", "code", "design", "archive", "other"]
    ensures DistinctKeys(FallbackMappings())
  {
    FallbackKeyList();
    FallbackKeysDistinct();
  }

  lemma FallbackKeyList()
    ensures Keys(FallbackMappings()) == ["document", "media", "code", "design", "archive", "other"]
  {
    var ks := Keys(FallbackMappings());
    assert |ks| == 6;
    assert ks == ["document", "media", "code", "design", "archive", "other"];
  }

  lemma FallbackKeysDistinct()
    ensures Distinct(["document", "media", "code", "design", "archive", "other"])
  {
    var ks := ["document", "media", "code", "design", "archive", "other"];
    forall i, j | 0 <= i < j < |ks|
      ensures ks[i] != ks[j]
    {
      assert |ks[i]| != |ks[j]| || ks[i][0] != ks[j][0];
    }
  }

  /** The rule at index i is the first one in m that p accepts. */
  ghost predicate FirstAt(m: Mapping, p: Rule -> bool, i: int)
  {
    0 <= i < |m| && p(m[i].1) && forall j :: 0 <= j < i ==> !p(m[j].1)
  }

  /** The loop `for category, info in mappings.items(): if p(info): return category` then `return "other"`. */
  function FirstMatch(m: Mapping, p: Rule -> bool): (r: string)
    ensures r == Other || r in Keys(m)
  {
    if m == [] then Other
    else if p(m[0].1) then m[0].0
    else
      assert Keys(m) == [m[0].0] + Keys(m[1..]);
      FirstMatch(m[1..], p)
  }

  /**
   * FirstMatch answers the key of the first rule p accepts, and "other" exactly when
   * p accepts none.
   */
  lemma {:induction false} FirstMatchSpec(m: Mapping, p: Rule -> bool)
    ensures (exists i :: FirstAt(m, p, i) && FirstMatch(m, p) == m[i].0)
            || ((forall i :: 0 <= i < |m| ==> !p(m[i].1)) && FirstMatch(m, p) == Other)
  {
    if m == [] {
    } else if p(m[0].1) {
      assert FirstAt(m, p, 0);
    } else {
      FirstMatchSpec(m[1..], p);
      assert forall i :: FirstAt(m[1..], p, i) ==> FirstAt(m, p, i + 1) && m[1..][i].0 == m[i + 1].0;
      assert forall i :: 0 < i < |m| ==> m[i] == m[1..][i - 1];
    }
  }

  lemma {:induction false} FirstMatchAt(m: Mapping, p: Rule -> bool, i: int)
    requires FirstAt(m, p, i)
    ensures FirstMatch(m, p) == m[i].0
  {
    if i > 0 {
      assert FirstAt(m[1..], p, i - 1);
      FirstMatchAt(m[1..], p, i - 1);
    }
  }

  lemma {:induction false} FirstMatchNone(m: Mapping, p: Rule -> bool)
    requires forall i :: 0 <= i < |m| ==> !p(m[i].1)
    ensures FirstMatch(m, p) == Other
  {
    if m != [] {
      assert forall i :: 0 <= i < |m[1..]| ==> m[1..][i] == m[i + 1];
      FirstMatchNone(m[1..], p);
    }
  }

  /** `'extensions' in info and extension in info['extensions']`, on the lowered extension. */
  predicate ExtensionRule(ext: string, r: Rule)
  {
    r.extensions.Some? && ext in r.extensions.value
  }

  /** Some pattern of the rule is a prefix of the MIME type (str.startswith, case-sensitive). */
  predicate MimeRule(mime: string, r: Rule)
  {
    r.mimeTypes.Some? && exists pat :: pat in r.mimeTypes.value && pat <= mime
  }

  /** Some keyword of the rule, lowered, occurs in the lowered filename. */
  predicate NameRule(filename: string, r: Rule)
  {
    r.keywords.Some? && exists kw :: kw in r.keywords.value && Contains(filename, Lower(kw))
  }

  /** _classify_by_extension */
  function ClassifyByExtension(m: Mapping, extension: string): string
  {
    FirstMatch(m, r => ExtensionRule(Lower(extension), r))
  }

  /** _classify_by_mime */
  function ClassifyByMime(m: Mapping, mime: string): string
  {
    FirstMatch(m, r => MimeRule(mime, r))
  }

  /** _classify_by_name */
  function ClassifyByName(m: Mapping, filename: string): string
  {
    FirstMatch(m, r => NameRule(Lower(filename), r))
  }

  /** Extension result unless "other", then MIME result unless "other", then name result. */
  function Prioritize(byExt: string, byMime: string, byName: string): string
  {
    if byExt != Other then byExt
    else if byMime != Other then byMime
    else if byName != Other then byName
    else Other
  }

  /**
   * classify_file: all three lookups are made before the choice, so a missing
   * 'extension', 'mime_type' or 'name' raises and the handler answers "other".
   */
  function ClassifyFile(m: Mapping, f: FileInfo): (r: string)
    ensures r == Other || r in Keys(m)
  {
    if f.extension.None? || f.mimeType.None? || f.name.None? then Other
    else
      Prioritize(ClassifyByExtension(m, f.extension.value),
                 ClassifyByMime(m, f.mimeType.value),
                 ClassifyByName(m, f.name.value))
  }

  /**
   * The priority chain, stated against the sub-lookups: a descriptor with all three
   * fields gets the first sub-result that is not "other"; one missing a field gets "other".
   */
  lemma ClassifyPriority(m: Mapping, f: FileInfo)
    ensures f.extension.None? || f.mimeType.None? || f.name.None? ==> ClassifyFile(m, f) == Other
    ensures f.extension.Some? && f.mimeType.Some? && f.name.Some? ==>
      var e, t, n := ClassifyByExtension(m, f.extension.value), ClassifyByMime(m, f.mimeType.value),
                     ClassifyByName(m, f.name.value);
      (e != Other ==> ClassifyFile(m, f) == e)
      && (e == Other && t != Other ==> ClassifyFile(m, f) == t)
      && (e == Other && t == Other ==> ClassifyFile(m, f) == n)
  {
  }

  /**
   * A category other than "other" is chosen only when its rule matches the descriptor
   * by extension, MIME prefix or name keyword.
   */
  lemma ClassifySound(m: Mapping, f: FileInfo)
    ensures ClassifyFile(m, f) != Other ==>
      f.extension.Some? && f.mimeType.Some? && f.name.Some? &&
      exists i :: 0 <= i < |m| && m[i].0 == ClassifyFile(m, f) &&
        (ExtensionRule(Lower(f.extension.value), m[i].1)
         || MimeRule(f.mimeType.value, m[i].1)
         || NameRule(Lower(f.name.value), m[i].1))
  {
    if ClassifyFile(m, f) != Other {
      var e, t, n := ClassifyByExtension(m, f.extension.value), ClassifyByMime(m, f.mimeType.value),
                     ClassifyByName(m, f.name.value);
      FirstMatchSpec(m, r => ExtensionRule(Lower(f.extension.value), r));
      FirstMatchSpec(m, r => MimeRule(f.mimeType.value, r));
      FirstMatchSpec(m, r => NameRule(Lower(f.name.value), r));
      if e != Other {
        var i :| FirstAt(m, r => ExtensionRule(Lower(f.extension.value), r), i) && e == m[i].0;
      } else if t != Other {
        var i :| FirstAt(m, r => MimeRule(f.mimeType.value, r), i) && t == m[i].0;
      } else {
        var i :| FirstAt(m, r => NameRule(Lower(f.name.value), r), i) && n == m[i].0;
      }
    }
  }

  /** A rule without keywords never matches by name, so the fallback mapping never classifies by name. */
  lemma FallbackNoNameMatch(filename: string)
    ensures ClassifyByName(FallbackMappings(), filename) == Other
  {
    var m := FallbackMappings();
    var p := (r: Rule) => NameRule(Lower(filename), r);
    FirstMatchNone(m, p);
  }

  // Worked examples over the fallback mapping.

  lemma PsdExtensionIsDesign()
    ensures ClassifyByExtension(FallbackMappings(), ".psd") == "design"
  {
    var m := FallbackMappings();
    var p := (r: Rule) => ExtensionRule(Lower(".psd"), r);
    assert Lower(".psd") == ".psd";
    assert !p(m[0].1);
    assert !p(m[1].1);
    assert !p(m[2].1);
    assert p(m[3].1);
    FirstMatchAt(m, p, 3);
  }

  /** A .psd with the Photoshop MIME type is "design": the extension decides. */
  lemma PsdIsDesign(name: string)
    ensures ClassifyFile(FallbackMappings(),
      FileInfo(None, Some(name), Some(".psd"), None, None, None, Some("image/vnd.adobe.photoshop"), None, None))
      == "design"
  {
    PsdExtensionIsDesign();
  }

  /**
   * Under the fallback mapping, every image MIME type is "media" by MIME type alone: document's
   * prefixes do not match it, and media's "image/" comes before design's.
   */
  lemma ImageMimeIsMedia(mime: string)
    requires "image/" <= mime
    ensures ClassifyByMime(FallbackMappings(), mime) == "media"
  {
    var m := FallbackMappings();
    var p := (r: Rule) => MimeRule(mime, r);
    NotPrefixAt("application/pdf", mime, 0);
    NotPrefixAt("application/msword", mime, 0);
    NotPrefixAt("text/plain", mime, 0);
    assert "image/" in m[1].1.mimeTypes.value;
    assert !p(m[0].1) && p(m[1].1);
    FirstMatchAt(m, p, 1);
  }

  /** The Photoshop MIME type on its own is "media", although its extension is design's. */
  lemma PhotoshopMimeIsMedia()
    ensures ClassifyByMime(FallbackMappings(), "image/vnd.adobe.photoshop") == "media"
  {
    ImageMimeIsMedia("image/vnd.adobe.photoshop");
  }

  /** An unknown extension gives "other", not None. */
  lemma UnknownExtensionIsOther()
    ensures ClassifyByExtension(FallbackMappings(), ".xyz") == Other
  {
    var m := FallbackMappings();
    var p := (r: Rule) => ExtensionRule(Lower(".xyz"), r);
    assert Lower(".xyz") == ".xyz";
    assert forall i :: 0 <= i < |m| ==> !p(m[i].1);
    FirstMatchNone(m, p);
  }

  /** "text/javascript" matches no fallback pattern, so it gives "other". */
  lemma TextJavascriptIsOther()
    ensures ClassifyByMime(FallbackMappings(), "text/javascript") == Other
  {
    var m := FallbackMappings();
    var mime := "text/javascript";
    var p := (r: Rule) => MimeRule(mime, r);
    NotPrefixAt("application/pdf", mime, 0);
    NotPrefixAt("application/msword", mime, 0);
    NotPrefixAt("text/plain", mime, 5);
    NotPrefixAt("image/", mime, 0);
    NotPrefixAt("video/", mime, 0);
    NotPrefixAt("audio/", mime, 0);
    NotPrefixAt("text/x-python", mime, 5);
    NotPrefixAt("application/javascript", mime, 0);
    NotPrefixAt("text/html", mime, 5);
    NotPrefixAt("image/vnd.adobe.photoshop", mime, 0);
    NotPrefixAt("application/postscript", mime, 0);
    NotPrefixAt("image/svg+xml", mime, 0);
    NotPrefixAt("application/zip", mime, 0);
    NotPrefixAt("application/x-rar-compressed", mime, 0);
    NotPrefixAt("application/x-7z-compressed", mime, 0);
    assert forall i :: 0 <= i < |m| ==> !p(m[i].1);
    FirstMatchNone(m, p);
  }

  /** A descriptor without 'name' is "other" even though its extension matches. */
  lemma MissingNameIsOther()
    ensures ClassifyFile(FallbackMappings(),
      FileInfo(None, None, Some(".pdf"), None, None, None, Some("application/pdf"), None, None))
      == Other
  {
  }

  /** classify_file under a fixed mapping, as a function value. */
  function ClassOf(m: Mapping): FileInfo -> string
  {
    f => ClassifyFile(m, f)
  }

  // Grouping descriptors into buckets under an arbitrary class function.

  /** The descriptors of fs that cls sends to k, in input order. */
  function Select(cls: FileInfo -> string, fs: seq<FileInfo>, k: string): (r: seq<FileInfo>)
    ensures |r| <= |fs|
  {
    if fs == [] then []
    else Select(cls, fs[..|fs| - 1], k) + (if cls(fs[|fs| - 1]) == k then [fs[|fs| - 1]] else [])
  }

  /** Only descriptors that cls sends to k are selected. */
  lemma {:induction false} SelectSound(cls: FileInfo -> string, fs: seq<FileInfo>, k: string, f: FileInfo)
    requires f in Select(cls, fs, k)
    ensures f in fs && cls(f) == k
    decreases |fs|
  {
    if f !in Select(cls, fs[..|fs| - 1], k) {
      assert f == fs[|fs| - 1];
    } else {
      SelectSound(cls, fs[..|fs| - 1], k, f);
    }
  }

  /** Every descriptor that cls sends to k is selected. */
  lemma {:induction false} SelectComplete(cls: FileInfo -> string, fs: seq<FileInfo>, k: string, f: FileInfo)
    requires f in fs && cls(f) == k
    ensures f in Select(cls, fs, k)
    decreases |fs|
  {
    if f != fs[|fs| - 1] {
      assert f in fs[..|fs| - 1];
      SelectComplete(cls, fs[..|fs| - 1], k, f);
    }
  }

  lemma SelectSnoc(cls: FileInfo -> string, fs: seq<FileInfo>, f: FileInfo, k: string)
    ensures Select(cls, fs + [f], k) == Select(cls, fs, k) + (if cls(f) == k then [f] else [])
  {
    assert (fs + [f])[..|fs|] == fs;
  }

  /** One bucket per key of ks, holding that key's selection. */
  function BucketsFor(cls: FileInfo -> string, fs: seq<FileInfo>, ks: seq<string>): (r: Buckets)
    ensures |r| == |ks|
    ensures forall j :: 0 <= j < |ks| ==> r[j] == (ks[j], Select(cls, fs, ks[j]))
  {
    if ks == [] then [] else [(ks[0], Select(cls, fs, ks[0]))] + BucketsFor(cls, fs, ks[1..])
  }

  /** Every descriptor of fs has a class among ks, checked front to back. */
  predicate Covered(cls: FileInfo -> string, ks: seq<string>, fs: seq<FileInfo>)
  {
    fs == [] || (Covered(cls, ks, fs[..|fs| - 1]) && cls(fs[|fs| - 1]) in ks)
  }

  /** The front-to-back check passes exactly when every descriptor's class is a key. */
  lemma {:induction false} CoveredIff(cls: FileInfo -> string, ks: seq<string>, fs: seq<FileInfo>)
    ensures Covered(cls, ks, fs) <==> forall f :: f in fs ==> cls(f) in ks
    decreases |fs|
  {
    if fs != [] {
      var init := fs[..|fs| - 1];
      CoveredIff(cls, ks, init);
      assert fs == init + [fs[|fs| - 1]];
      assert forall f :: f in fs <==> f in init || f == fs[|fs| - 1];
    }
  }

  /** Grouping by cls into a dictionary pre-filled with the keys ks; None when a class is not a key. */
  function Group(cls: FileInfo -> string, ks: seq<string>, fs: seq<FileInfo>): Option<Buckets>
  {
    if !Covered(cls, ks, fs) then None
    else Some(BucketsFor(cls, fs, ks))
  }

  function SizeSum(b: Buckets): nat
  {
    if b == [] then 0 else |b[0].1| + SizeSum(b[1..])
  }

  /** How many entries of ks equal c. */
  function Occurrences(ks: seq<string>, c: string): nat
  {
    if ks == [] then 0 else (if ks[0] == c then 1 else 0) + Occurrences(ks[1..], c)
  }

  lemma {:induction false} OccurrencesDistinct(ks: seq<string>, c: string)
    requires Distinct(ks)
    ensures Occurrences(ks, c) == if c in ks then 1 else 0
  {
    if ks != [] {
      assert Distinct(ks[1..]) by {
        assert forall i, j :: 0 <= i < j < |ks[1..]| ==> ks[1..][i] == ks[i + 1] && ks[1..][j] == ks[j + 1];
      }
      OccurrencesDistinct(ks[1..], c);
      if ks[0] == c {
        assert forall j :: 0 <= j < |ks[1..]| ==> ks[1..][j] == ks[j + 1];
      }
    }
  }

  lemma {:induction false} SizeSumStep(cls: FileInfo -> string, fs: seq<FileInfo>, ks: seq<string>)
    requires fs != []
    ensures SizeSum(BucketsFor(cls, fs, ks))
         == SizeSum(BucketsFor(cls, fs[..|fs| - 1], ks)) + Occurrences(ks, cls(fs[|fs| - 1]))
  {
    if ks != [] {
      SizeSumStep(cls, fs, ks[1..]);
    }
  }

  lemma {:induction false} SizeSumEmpty(cls: FileInfo -> string, ks: seq<string>)
    ensures SizeSum(BucketsFor(cls, [], ks)) == 0
  {
    if ks != [] {
      SizeSumEmpty(cls, ks[1..]);
    }
  }

  /** With distinct keys that cover every class, the buckets together hold |fs| descriptors. */
  lemma {:induction false} SizeSumTotal(cls: FileInfo -> string, fs: seq<FileInfo>, ks: seq<string>)
    requires Distinct(ks) && Covered(cls, ks, fs)
    ensures SizeSum(BucketsFor(cls, fs, ks)) == |fs|
    decreases |fs|
  {
    if fs == [] {
      SizeSumEmpty(cls, ks);
    } else {
      SizeSumTotal(cls, fs[..|fs| - 1], ks);
      SizeSumStep(cls, fs, ks);
      OccurrencesDistinct(ks, cls(fs[|fs| - 1]));
    }
  }

  /** A successful grouping holds |fs| descriptors in all: its bucket sizes add up to |fs|. */
  lemma GroupSizes(cls: FileInfo -> string, ks: seq<string>, fs: seq<FileInfo>)
    requires Distinct(ks)
    ensures Group(cls, ks, fs).Some? ==> SizeSum(Group(cls, ks, fs).value) == |fs|
  {
    if Group(cls, ks, fs).Some? {
      SizeSumTotal(cls, fs, ks);
    }
  }

  /** A successful grouping puts every descriptor in the bucket of its class. */
  lemma GroupComplete(cls: FileInfo -> string, ks: seq<string>, fs: seq<FileInfo>)
    ensures Group(cls, ks, fs).Some? ==> forall i :: 0 <= i < |fs| ==>
      exists j :: 0 <= j < |ks| && ks[j] == cls(fs[i]) && fs[i] in Group(cls, ks, fs).value[j].1
  {
    if Group(cls, ks, fs).Some? {
      var b := BucketsFor(cls, fs, ks);
      CoveredIff(cls, ks, fs);
      forall i | 0 <= i < |fs|
        ensures exists j :: 0 <= j < |ks| && ks[j] == cls(fs[i]) && fs[i] in b[j].1
      {
        assert fs[i] in fs;
        var j :| 0 <= j < |ks| && ks[j] == cls(fs[i]);
        SelectComplete(cls, fs, ks[j], fs[i]);
      }
    }
  }

  /** A successful grouping's buckets hold only input descriptors of their own key's class. */
  lemma GroupSound(cls: FileInfo -> string, ks: seq<string>, fs: seq<FileInfo>)
    ensures Group(cls, ks, fs).Some? ==> forall j, f :: 0 <= j < |ks| && f in Group(cls, ks, fs).value[j].1 ==>
      f in fs && cls(f) == ks[j]
  {
    if Group(cls, ks, fs).Some? {
      var b := BucketsFor(cls, fs, ks);
      forall j, f | 0 <= j < |ks| && f in b[j].1
        ensures f in fs && cls(f) == ks[j]
      {
        SelectSound(cls, fs, ks[j], f);
      }
    }
  }

  /**
   * Appending files[i] to its class's bucket turns the buckets of files[..i]
   * into the buckets of files[..i + 1].
   */
  lemma AppendStep(cls: FileInfo -> string, ks: seq<string>, cat: Buckets, files: seq<FileInfo>, i: int)
    requires Distinct(ks) && 0 <= i < |files|
    requires cat == BucketsFor(cls, files[..i], ks)
    requires cls(files[i]) in ks
    ensures Get(cat, cls(files[i])).Some?
    ensures Set(cat, cls(files[i]), Get(cat, cls(files[i])).value + [files[i]]) == BucketsFor(cls, files[..i + 1], ks)
  {
    var f := files[i];
    var fs := files[..i];
    assert files[..i + 1] == fs + [f];
    var c := cls(f);
    var v := AppendedBucket(cls, ks, cat, fs, f);
    SetAt(cat, c, v);
    var cat' := Set(cat, c, v);
    var want := BucketsFor(cls, fs + [f], ks);
    forall j | 0 <= j < |ks|
      ensures cat'[j] == want[j]
    {
      AppendEntry(cls, ks, fs, f, v, j);
    }
  }

  /** The bucket of f's class, with f appended, is that class's selection from fs + [f]. */
  lemma AppendedBucket(cls: FileInfo -> string, ks: seq<string>, cat: Buckets, fs: seq<FileInfo>, f: FileInfo)
      returns (v: seq<FileInfo>)
    requires Distinct(ks) && cat == BucketsFor(cls, fs, ks) && cls(f) in ks
    ensures DistinctKeys(cat) && cls(f) in Keys(cat)
    ensures Get(cat, cls(f)).Some? && v == Get(cat, cls(f)).value + [f]
    ensures v == Select(cls, fs + [f], cls(f))
  {
    BucketsForKeys(cls, fs, ks);
    var j0 :| 0 <= j0 < |ks| && ks[j0] == cls(f);
    GetAt(cat, j0);
    v := Get(cat, cls(f)).value + [f];
    SelectSnoc(cls, fs, f, cls(f));
  }

  /** Entry j after appending f: its own class's entry gets v, any other key keeps its selection. */
  lemma AppendEntry(cls: FileInfo -> string, ks: seq<string>, fs: seq<FileInfo>, f: FileInfo, v: seq<FileInfo>, j: int)
    requires 0 <= j < |ks| && v == Select(cls, fs + [f], cls(f))
    ensures (if ks[j] == cls(f) then (cls(f), v) else (ks[j], Select(cls, fs, ks[j])))
         == (ks[j], Select(cls, fs + [f], ks[j]))
  {
    SelectSnoc(cls, fs, f, ks[j]);
    if ks[j] != cls(f) {
      assert Select(cls, fs, ks[j]) + [] == Select(cls, fs, ks[j]);
    }
  }

  /** `for category in mappings.keys(): categorized[category] = []` */
  method EmptyBuckets(ghost cls: FileInfo -> string, ks: seq<string>) returns (categorized: Buckets)
    ensures categorized == BucketsFor(cls, [], ks)
  {
    categorized := [];
    var n := 0;
    while n < |ks|
      invariant 0 <= n <= |ks|
      invariant categorized == BucketsFor(cls, [], ks[..n])
    {
      assert ks[..n + 1] == ks[..n] + [ks[n]];
      BucketsForSnoc(cls, [], ks[..n], ks[n]);
      categorized := categorized + [(ks[n], [])];
      n := n + 1;
    }
    assert ks[..n] == ks;
  }

  /** The buckets' keys are ks, in order. */
  lemma BucketsForKeys(cls: FileInfo -> string, fs: seq<FileInfo>, ks: seq<string>)
    ensures Keys(BucketsFor(cls, fs, ks)) == ks
  {
    var b := BucketsFor(cls, fs, ks);
    assert forall j :: 0 <= j < |ks| ==> Keys(b)[j] == b[j].0;
  }

  /** `categorized[category].append(file_info)` for the i-th descriptor, whose category is a key. */
  method AppendToBucket(ghost cls: FileInfo -> string, ks: seq<string>, categorized: Buckets,
                        files: seq<FileInfo>, i: int, category: string) returns (next: Buckets)
    requires Distinct(ks) && 0 <= i < |files|
    requires categorized == BucketsFor(cls, files[..i], ks)
    requires category == cls(files[i]) && category in ks
    ensures next == BucketsFor(cls, files[..i + 1], ks)
  {
    AppendStep(cls, ks, categorized, files, i);
    var bucket := Get(categorized, category);
    next := Set(categorized, category, bucket.value + [files[i]]);
  }

  /** The grouping loop of batch_classify, with the class function as a parameter. */
  method GroupBy(cls: FileInfo -> string, ks: seq<string>, files: seq<FileInfo>) returns (r: Option<Buckets>)
    requires Distinct(ks)
    ensures r == Group(cls, ks, files)
  {
    var categorized := EmptyBuckets(cls, ks);
    var i := 0;
    while i < |files|
      invariant 0 <= i <= |files|
      invariant categorized == BucketsFor(cls, files[..i], ks)
      invariant Covered(cls, ks, files[..i])
    {
      var category := cls(files[i]);
      // the keys of categorized are ks, so this is the KeyError of categorized[category]
      if category !in ks {
        GroupFails(cls, ks, files, i);
        return None;
      }
      categorized := AppendToBucket(cls, ks, categorized, files, i, category);
      CoveredStep(cls, ks, files, i);
      i := i + 1;
    }
    assert files[..i] == files;
    r := Some(categorized);
  }

  lemma CoveredStep(cls: FileInfo -> string, ks: seq<string>, fs: seq<FileInfo>, i: int)
    requires 0 <= i < |fs| && Covered(cls, ks, fs[..i]) && cls(fs[i]) in ks
    ensures Covered(cls, ks, fs[..i + 1])
  {
    assert fs[..i + 1][..i] == fs[..i];
  }

  lemma GroupFails(cls: FileInfo -> string, ks: seq<string>, fs: seq<FileInfo>, i: int)
    requires 0 <= i < |fs| && cls(fs[i]) !in ks
    ensures Group(cls, ks, fs) == None
  {
    CoveredIff(cls, ks, fs);
    assert fs[i] in fs;
  }

  lemma GroupSucceeds(cls: FileInfo -> string, ks: seq<string>, fs: seq<FileInfo>)
    requires forall k :: 0 <= k < |fs| ==> cls(fs[k]) in ks
    ensures Group(cls, ks, fs) == Some(BucketsFor(cls, fs, ks))
  {
    CoveredIff(cls, ks, fs);
    forall f | f in fs
      ensures cls(f) in ks
    {
      var k :| 0 <= k < |fs| && fs[k] == f;
    }
  }

  lemma BucketsForSnoc(cls: FileInfo -> string, fs: seq<FileInfo>, ks: seq<string>, k: string)
    ensures BucketsFor(cls, fs, ks + [k]) == BucketsFor(cls, fs, ks) + [(k, Select(cls, fs, k))]
  {
  }

  /** batch_classify's result: one bucket per mapping key, or None for the KeyError. */
  function BatchBuckets(m: Mapping, fs: seq<FileInfo>): Option<Buckets>
  {
    Group(ClassOf(m), Keys(m), fs)
  }

  /**
   * The KeyError happens exactly when a descriptor falls to "other" and "other" is not a
   * key; otherwise the buckets follow the mapping's keys and hold each key's selection.
   */
  lemma BatchBucketsSpec(m: Mapping, fs: seq<FileInfo>)
    ensures BatchBuckets(m, fs).None? <==> Other !in Keys(m) && exists i :: 0 <= i < |fs| && ClassifyFile(m, fs[i]) == Other
    ensures BatchBuckets(m, fs).Some? ==> Keys(BatchBuckets(m, fs).value) == Keys(m)
    ensures BatchBuckets(m, fs).Some? ==> forall j :: 0 <= j < |m| ==>
      BatchBuckets(m, fs).value[j].1 == Select(ClassOf(m), fs, m[j].0)
  {
    var cls := ClassOf(m);
    BucketsForKeys(cls, fs, Keys(m));
    assert forall f :: cls(f) == ClassifyFile(m, f);
    CoveredIff(cls, Keys(m), fs);
    if exists f :: f in fs && cls(f) !in Keys(m) {
      var f :| f in fs && cls(f) !in Keys(m);
      var i :| 0 <= i < |fs| && fs[i] == f;
    }
  }

  /** When batch_classify returns, its bucket sizes add up to the number of descriptors. */
  lemma BatchSizes(m: Mapping, fs: seq<FileInfo>)
    requires DistinctKeys(m)
    ensures BatchBuckets(m, fs).Some? ==> SizeSum(BatchBuckets(m, fs).value) == |fs|
  {
    GroupSizes(ClassOf(m), Keys(m), fs);
  }

  /** When batch_classify returns, each descriptor is in the bucket of its own class. */
  lemma BatchComplete(m: Mapping, fs: seq<FileInfo>, i: int)
    requires DistinctKeys(m) && 0 <= i < |fs|
    ensures BatchBuckets(m, fs).Some? ==>
      exists j :: 0 <= j < |m| && m[j].0 == ClassifyFile(m, fs[i]) && fs[i] in BatchBuckets(m, fs).value[j].1
  {
    var cls := ClassOf(m);
    GroupComplete(cls, Keys(m), fs);
    var r := BatchBuckets(m, fs);
    if r.Some? {
      var j :| 0 <= j < |m| && Keys(m)[j] == cls(fs[i]) && fs[i] in r.value[j].1;
      assert m[j].0 == ClassifyFile(m, fs[i]);
    }
  }

  /** When batch_classify returns, a bucket holds only input descriptors of its key's class. */
  lemma BatchSound(m: Mapping, fs: seq<FileInfo>, j: int, f: FileInfo)
    requires DistinctKeys(m) && 0 <= j < |m|
    ensures BatchBuckets(m, fs).Some? && f in BatchBuckets(m, fs).value[j].1 ==>
      f in fs && ClassifyFile(m, f) == m[j].0
  {
    var cls := ClassOf(m);
    GroupSound(cls, Keys(m), fs);
    var r := BatchBuckets(m, fs);
    if r.Some? && f in r.value[j].1 {
      assert cls(f) == Keys(m)[j];
    }
  }

  /** The classifier object: its mapping is a dictionary, so keys are distinct. */
  class AIClassifier {
    var mappings: Mapping

    ghost predicate Valid()
      reads this
    {
      DistinctKeys(mappings)
    }

    /** load_category_mappings: the loaded mapping, or the fallback when loading failed. */
    constructor (loaded: Option<Mapping>)
      requires loaded.Some? ==> DistinctKeys(loaded.value)
      ensures Valid()
      ensures mappings == if loaded.Some? then loaded.value else FallbackMappings()
    {
      FallbackKeys();
      mappings := if loaded.Some? then loaded.value else FallbackMappings();
    }

    function Classify(f: FileInfo): string
      reads this
    {
      ClassifyFile(mappings, f)
    }

    /** batch_classify: one empty bucket per key, then each descriptor appended to its class's bucket. */
    method BatchClassify(files: seq<FileInfo>) returns (r: Option<Buckets>)
      requires Valid()
      ensures r == BatchBuckets(mappings, files)
    {
      r := GroupBy(ClassOf(mappings), Keys(mappings), files);
    }

    /** update_category_mappings: dict.update on the in-memory mapping; saving it is not modelled. */
    method UpdateCategoryMappings(newMappings: Mapping)
      requires Valid()
      modifies this
      ensures Valid()
      ensures mappings == Update(old(mappings), newMappings)
    {
      UpdateDistinct(mappings, newMappings);
      mappings := Update(mappings, newMappings);
    }
  }
}
