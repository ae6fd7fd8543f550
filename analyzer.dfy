/**
 * The filename and metadata analyser: MIME resolution, version/draft/final flags,
 * the keyword filter, the size rules of analyze_file, and the directory scan.
 */
module Analyzer {
  import opened Wrappers
  import opened Text
  import opened Dicts
  import opened FileSystem
  import opened Descriptors

  // ---------------------------------------------------------------- MIME type

  /** The analyser's own extension table, consulted before the platform guesser. */
  function MimeTable(): Dict<string>
  {
    [ (".pdf", "application/pdf"),
      (".doc", "application/msword"),
      (".docx", "application/vnd.openxmlformats-officedocument.wordprocessingml.document"),
      (".txt", "text/plain"),
      (".jpg", "image/jpeg"),
      (".jpeg", "image/jpeg"),
      (".png", "image/png"),
      (".gif", "image/gif"),
      (".mp4", "video/mp4"),
      (".mp3", "audio/mpeg"),
      (".psd", "image/vnd.adobe.photoshop"),
      (".ai", "application/illustrator"),
      (".zip", "application/zip"),
      (".rar", "application/x-rar-compressed"),
      (".exe", "application/x-msdownload"),
      (".py", "text/x-python"),
      (".js", "application/javascript"),
      (".html", "text/html"),
      (".css", "text/css"),
      (".xlsx", "application/vnd.openxmlformats-officedocument.spreadsheetml.sheet"),
      (".pptx", "application/vnd.openxmlformats-officedocument.presentationml.presentation") ]
  }

  const OctetStream: string := "application/octet-stream"

  /** os.path.splitext(path)[1].lower(): only the last path component can hold the suffix. */
  function LowerExtension(path: Path): (r: string)
    ensures r == [] || (r[0] == '.' && '.' !in r[1..])
    ensures forall i :: 0 <= i < |r| ==> !IsUpper(r[i])
  {
    Lower(SplitExt(Basename(path)).1)
  }

  /**
   * get_mime_type over an extension table (the analyser's is MimeTable()), with the
   * answer of mimetypes.guess_type for this path passed in: the table entry for the
   * lowered extension, else the guess, else one made from the extension, else
   * application/octet-stream.
   */
  function GetMimeType(table: Dict<string>, path: Path, guessed: Option<string>): (r: string)
    ensures var ext := LowerExtension(path);
      (Get(table, ext).Some? ==> r == Get(table, ext).value)
      && (Get(table, ext).None? && guessed.Some? ==> r == guessed.value)
      && (Get(table, ext).None? && guessed.None? && ext != [] ==> r == "application/" + ext[1..])
      && (Get(table, ext).None? && guessed.None? && ext == [] ==> r == OctetStream)
  {
    var ext := LowerExtension(path);
    match Get(table, ext)
    case Some(m) => m
    case None =>
      if guessed.Some? then guessed.value
      else if ext != [] then "application/" + ext[1..]
      else OctetStream
  }

  /** The file name's case does not matter: only its lowered extension is looked at. */
  lemma MimeCaseInsensitive(table: Dict<string>, dir: Path, name: string, guessed: Option<string>)
    ensures GetMimeType(table, dir + [name], guessed) == GetMimeType(table, dir + [Lower(name)], guessed)
  {
    assert Basename(dir + [name]) == name;
    assert Basename(dir + [Lower(name)]) == Lower(name);
    SplitExtLower(name);
    LowerIdempotent(SplitExt(name).1);
  }

  /** The table is consulted on the lowered extension: "Report.PDF" is a PDF. */
  lemma UpperCasePdf(dir: Path, guessed: Option<string>)
    ensures GetMimeType(MimeTable(), dir + ["Report.PDF"], guessed) == "application/pdf"
  {
    PdfExtension(dir);
  }

  /** The extension of a path is the lowered extension of its last name. */
  lemma ExtensionOfName(dir: Path, name: string)
    ensures LowerExtension(dir + [name]) == Lower(SplitExt(name).1)
  {
    assert Basename(dir + [name]) == name;
  }

  lemma PdfExtension(dir: Path)
    ensures LowerExtension(dir + ["Report.PDF"]) == ".pdf"
  {
    ExtensionOfName(dir, "Report.PDF");
    PdfSplit();
    LowerPdf();
  }

  lemma PdfSplit()
    ensures SplitExt("Report.PDF").1 == ".PDF"
  {
    assert "Report.PDF" == "Report" + "." + "PDF";
    SplitExtDot("Report", "PDF");
  }

  lemma LowerPdf()
    ensures Lower(".PDF") == ".pdf"
  {
  }

  /** Without a table entry or a guess, the type is made from the last extension. */
  lemma UnknownExtensionMime(table: Dict<string>, dir: Path)
    requires ".sqlite" !in Keys(table)
    ensures GetMimeType(table, dir + ["db.Backup.SQLite"], None) == "application/" + "sqlite"
  {
    var p := dir + ["db.Backup.SQLite"];
    SqliteExtension(dir);
    assert LowerExtension(p)[1..] == "sqlite";
  }

  lemma SqliteExtension(dir: Path)
    ensures LowerExtension(dir + ["db.Backup.SQLite"]) == ".sqlite"
  {
    ExtensionOfName(dir, "db.Backup.SQLite");
    SqliteSplit();
    LowerSqlite();
  }

  lemma SqliteSplit()
    ensures SplitExt("db.Backup.SQLite").1 == ".SQLite"
  {
    assert "db.Backup.SQLite" == "db.Backup" + "." + "SQLite";
    SplitExtDot("db.Backup", "SQLite");
  }

  lemma LowerSqlite()
    ensures Lower(".SQLite") == ".sqlite"
  {
  }

  /** A leading-dot name has no extension, so without a guess it is application/octet-stream. */
  lemma DotFileMime(table: Dict<string>, dir: Path)
    requires [] !in Keys(table)
    ensures GetMimeType(table, dir + [".bashrc"], None) == OctetStream
  {
    ExtensionOfName(dir, ".bashrc");
    DotFileSplit();
    assert LowerExtension(dir + [".bashrc"]) == [];
  }

  lemma DotFileSplit()
    ensures SplitExt(".bashrc").1 == ""
  {
    assert ".bashrc" == "." + "bashrc";
    SplitExtLeadingDot("bashrc");
  }

  // ------------------------------------------------------------- version scan

  /**
   * `\s` on ASCII characters, as str.isspace has it: space, tab, newline, carriage return,
   * vertical tab, form feed, and the separators 0x1C to 0x1F.
   */
  predicate IsSpace(c: char)
  {
    c == ' ' || c == '\t' || c == '\n' || c == '\r' || c == '\U{0B}' || c == '\U{0C}'
    || ('\U{1C}' <= c <= '\U{1F}')
  }

  /** End of the maximal digit run starting at i (`\d+` taken greedily). */
  function DigitsEnd(s: string, i: nat): (r: nat)
    requires i <= |s|
    ensures i <= r <= |s|
    ensures forall k :: i <= k < r ==> IsDigit(s[k])
    ensures r == |s| || !IsDigit(s[r])
    decreases |s| - i
  {
    if i < |s| && IsDigit(s[i]) then DigitsEnd(s, i + 1) else i
  }

  /** End of `(\.\d+)*` taken greedily from i, where s[i - 1] ends a digit run. */
  function DottedEnd(s: string, i: nat): (r: nat)
    requires 0 < i <= |s| && IsDigit(s[i - 1])
    requires i == |s| || !IsDigit(s[i])
    ensures i <= r <= |s| && IsDigit(s[r - 1])
    ensures r == |s| || !IsDigit(s[r])
    ensures !(r + 1 < |s| && s[r] == '.' && IsDigit(s[r + 1]))
    decreases |s| - i
  {
    if i + 1 < |s| && s[i] == '.' && IsDigit(s[i + 1]) then
      var d := DigitsEnd(s, i + 1);
      assert d > i + 1;
      DottedEnd(s, d)
    else i
  }

  /** Every character DottedEnd passes over is a digit or a dot followed by a digit. */
  lemma {:induction false} DottedEndRun(s: string, i: nat, k: int)
    requires 0 < i <= |s| && IsDigit(s[i - 1])
    requires i == |s| || !IsDigit(s[i])
    requires i <= k < DottedEnd(s, i)
    ensures IsDigit(s[k]) || (s[k] == '.' && k + 1 < DottedEnd(s, i) && IsDigit(s[k + 1]))
    decreases |s| - i
  {
    var d := DigitsEnd(s, i + 1);
    assert d > i + 1;
    if k >= d {
      DottedEndRun(s, d, k);
    }
  }

  /** `\d+(\.\d+)*` at i: the end of the greedy match, if there is one. */
  function NumberEnd(s: string, i: nat): (r: Option<nat>)
    requires i <= |s|
    ensures r.Some? <==> i < |s| && IsDigit(s[i])
    ensures r.Some? ==> i < r.value <= |s| && Dotted(s[i..r.value])
    ensures r.Some? ==> r.value == |s| || (!IsDigit(s[r.value]) && !(r.value + 1 < |s| && s[r.value] == '.' && IsDigit(s[r.value + 1])))
  {
    if i < |s| && IsDigit(s[i]) then
      var d := DigitsEnd(s, i);
      assert i < d;
      var e := DottedEnd(s, d);
      DottedSlice(s, i);
      Some(e)
    else None
  }

  /** A digit run followed by what DottedEnd passes over is a dotted number. */
  lemma DottedSlice(s: string, i: nat)
    requires i < |s| && IsDigit(s[i])
    ensures DigitsEnd(s, i) > i && Dotted(s[i..DottedEnd(s, DigitsEnd(s, i))])
  {
    var d := DigitsEnd(s, i);
    assert d > i;
    var e := DottedEnd(s, d);
    forall k | i <= k < e
      ensures DotStep(s, k, e)
    {
      if k >= d {
        DottedEndRun(s, d, k);
      }
    }
    DotStepsSlice(s, i, e);
  }

  /** Position k of s is a digit, or a dot followed, before e, by a digit. */
  predicate DotStep(s: string, k: int, e: int)
    requires 0 <= k < |s|
  {
    IsDigit(s[k]) || (s[k] == '.' && k + 1 < e && k + 1 < |s| && IsDigit(s[k + 1]))
  }

  lemma DotStepsSlice(s: string, i: int, e: int)
    requires 0 <= i < e <= |s| && IsDigit(s[i])
    requires forall k :: i <= k < e ==> DotStep(s, k, e)
    ensures Dotted(s[i..e])
  {
    var n := s[i..e];
    forall k | 0 <= k < |n|
      ensures IsDigit(n[k]) || (n[k] == '.' && k + 1 < |n| && IsDigit(n[k + 1]))
    {
      assert DotStep(s, i + k, e);
      assert n[k] == s[i + k];
      if k + 1 < |n| {
        assert n[k + 1] == s[i + k + 1];
      }
    }
  }

  /** The language of `\d+(\.\d+)*`: digit groups separated by single dots. */
  predicate Dotted(n: string)
  {
    |n| > 0 && IsDigit(n[0])
    && forall k :: 0 <= k < |n| ==> IsDigit(n[k]) || (n[k] == '.' && k + 1 < |n| && IsDigit(n[k + 1]))
  }

  /** End of the run of `\s` characters starting at i. */
  function SpacesEnd(s: string, i: nat): (r: nat)
    requires i <= |s|
    ensures i <= r <= |s|
    ensures forall k :: i <= k < r ==> IsSpace(s[k])
    ensures r == |s| || !IsSpace(s[r])
    decreases |s| - i
  {
    if i < |s| && IsSpace(s[i]) then SpacesEnd(s, i + 1) else i
  }

  /** The word "version" at i, in any letter case. */
  predicate VersionWordAt(s: string, i: int)
  {
    0 <= i && i + 7 <= |s|
    && LowerChar(s[i]) == 'v' && LowerChar(s[i + 1]) == 'e' && LowerChar(s[i + 2]) == 'r'
    && LowerChar(s[i + 3]) == 's' && LowerChar(s[i + 4]) == 'i' && LowerChar(s[i + 5]) == 'o'
    && LowerChar(s[i + 6]) == 'n'
  }

  /** VersionWordAt is the case-insensitive comparison of seven characters with "version". */
  lemma VersionWordIff(s: string, i: int)
    requires 0 <= i && i + 7 <= |s|
    ensures VersionWordAt(s, i) <==> Lower(s[i..i + 7]) == "version"
  {
    var w := Lower(s[i..i + 7]);
    assert forall j :: 0 <= j < 7 ==> w[j] == LowerChar(s[i + j]);
    VersionChars(w);
  }

  /** A string of length seven is "version" exactly when its characters spell it. */
  lemma VersionChars(w: string)
    requires |w| == 7
    ensures w == "version" <==> w[0] == 'v' && w[1] == 'e' && w[2] == 'r' && w[3] == 's'
                                && w[4] == 'i' && w[5] == 'o' && w[6] == 'n'
  {
    var v := "version";
    assert v[0] == 'v' && v[1] == 'e' && v[2] == 'r' && v[3] == 's' && v[4] == 'i' && v[5] == 'o' && v[6] == 'n';
    if w[0] == 'v' && w[1] == 'e' && w[2] == 'r' && w[3] == 's' && w[4] == 'i' && w[5] == 'o' && w[6] == 'n' {
      assert forall j :: 0 <= j < 7 ==> w[j] == v[j];
    }
  }

  /**
   * The version pattern anchored at i, alternatives in order: `v` then a number, or
   * `version`, optional spaces, then a number (letters case-insensitive). The answer is
   * the span of the number group.
   */
  function MatchAt(s: string, i: nat): (r: Option<(nat, nat)>)
    requires i <= |s|
    ensures r.Some? ==> i < r.value.0 < r.value.1 <= |s|
  {
    if i < |s| && LowerChar(s[i]) == 'v' && NumberEnd(s, i + 1).Some? then
      Some((i + 1, NumberEnd(s, i + 1).value))
    else if VersionWordAt(s, i) && NumberEnd(s, SpacesEnd(s, i + 7)).Some? then
      var j := SpacesEnd(s, i + 7);
      Some((j, NumberEnd(s, j).value))
    else None
  }

  /** A version token starts at k: the reference reading of the pattern, without the scanner. */
  predicate VersionTokenAt(s: string, k: int)
  {
    0 <= k < |s| &&
    ((LowerChar(s[k]) == 'v' && k + 1 < |s| && IsDigit(s[k + 1]))
     || (k + 7 <= |s| && Lower(s[k..k + 7]) == "version"
         && exists j :: k + 7 <= j < |s| && IsDigit(s[j]) && forall q :: k + 7 <= q < j ==> IsSpace(s[q])))
  }

  /** The scanner matches at k exactly when a version token starts there. */
  lemma MatchAtIff(s: string, k: nat)
    requires k <= |s|
    ensures MatchAt(s, k).Some? <==> VersionTokenAt(s, k)
  {
    if k + 7 <= |s| {
      VersionWordIff(s, k);
    }
    if k < |s| && !(LowerChar(s[k]) == 'v' && k + 1 < |s| && IsDigit(s[k + 1]))
       && VersionWordAt(s, k) {
      var e := SpacesEnd(s, k + 7);
      if e < |s| && IsDigit(s[e]) {
        assert k + 7 <= e < |s| && IsDigit(s[e]) && forall q :: k + 7 <= q < e ==> IsSpace(s[q]);
      }
      if j :| k + 7 <= j < |s| && IsDigit(s[j]) && forall q :: k + 7 <= q < j ==> IsSpace(s[q]) {
        assert j == e;
      }
    }
  }

  /** The first k in [i, n) with hit(k), scanning upwards. */
  function FirstHit(hit: nat -> bool, n: nat, i: nat): (r: Option<nat>)
    requires i <= n
    ensures r.Some? ==> i <= r.value < n && hit(r.value)
    decreases n - i
  {
    if i == n then None
    else if hit(i) then Some(i)
    else FirstHit(hit, n, i + 1)
  }

  /** Nothing before the position found is a hit; when none is found, nothing in [i, n) is. */
  lemma {:induction false} FirstHitLeftmost(hit: nat -> bool, n: nat, i: nat)
    requires i <= n
    ensures FirstHit(hit, n, i).Some? ==> forall k :: i <= k < FirstHit(hit, n, i).value ==> !hit(k)
    ensures FirstHit(hit, n, i).None? ==> forall k :: i <= k < n ==> !hit(k)
    decreases n - i
  {
    if i < n && !hit(i) {
      FirstHitLeftmost(hit, n, i + 1);
    }
  }

  /** The positions of s where the version pattern matches. */
  function Matches(s: string): nat -> bool
  {
    (k: nat) => k <= |s| && MatchAt(s, k).Some?
  }

  /** re.search: the leftmost position at or after i where the pattern matches. */
  function SearchFrom(s: string, i: nat): (r: Option<nat>)
    requires i <= |s|
    ensures r.Some? ==> i <= r.value < |s| && MatchAt(s, r.value).Some?
  {
    FirstHit(Matches(s), |s|, i)
  }

  /** The position found is the leftmost match; when none is found, nothing from i on matches. */
  lemma SearchFromLeftmost(s: string, i: nat)
    requires i <= |s|
    ensures SearchFrom(s, i).Some? ==> forall k :: i <= k < SearchFrom(s, i).value ==> MatchAt(s, k).None?
    ensures SearchFrom(s, i).None? ==> forall k :: i <= k <= |s| ==> MatchAt(s, k).None?
  {
    var hit := Matches(s);
    FirstHitLeftmost(hit, |s|, i);
    var r := SearchFrom(s, i);
    if r.Some? {
      forall k | i <= k < r.value
        ensures MatchAt(s, k).None?
      {
        assert !hit(k);
      }
    } else {
      forall k | i <= k <= |s|
        ensures MatchAt(s, k).None?
      {
        if k < |s| {
          assert !hit(k);
        }
      }
    }
  }

  /** The version number re.search reports: group 1 or group 3 of the leftmost match. */
  function VersionNumber(s: string): Option<string>
  {
    match SearchFrom(s, 0)
    case None => None
    case Some(p) => Some(s[MatchAt(s, p).value.0..MatchAt(s, p).value.1])
  }

  /** Case-insensitive `draft|taslak` anywhere in the name. */
  predicate IsDraftName(filename: string)
  {
    Contains(Lower(filename), "draft") || Contains(Lower(filename), "taslak")
  }

  /** Case-insensitive `final|son` anywhere in the name. */
  predicate IsFinalName(filename: string)
  {
    Contains(Lower(filename), "final") || Contains(Lower(filename), "son")
  }

  /** extract_version_info */
  function ExtractVersionInfo(filename: string): (r: VersionInfo)
    ensures r.isVersion <==> r.versionNumber.Some?
    ensures r.versionNumber.Some? ==> Dotted(r.versionNumber.value)
  {
    VersionNumberDotted(filename);
    var n := VersionNumber(filename);
    VersionInfo(n.Some?, n, IsDraftName(filename), IsFinalName(filename))
  }

  /** The number reported is the dotted number of the leftmost token, taken greedily. */
  lemma VersionNumberDotted(s: string)
    ensures VersionNumber(s).Some? ==> Dotted(VersionNumber(s).value)
  {
    if SearchFrom(s, 0).Some? {
      var p := SearchFrom(s, 0).value;
      if LowerChar(s[p]) == 'v' && NumberEnd(s, p + 1).Some? {
      } else {
        var j := SpacesEnd(s, p + 7);
        assert NumberEnd(s, j).Some?;
      }
    }
  }

  /** is_version holds exactly when some position starts a version token. */
  lemma IsVersionIff(filename: string)
    ensures ExtractVersionInfo(filename).isVersion <==> exists k :: VersionTokenAt(filename, k)
  {
    var r := SearchFrom(filename, 0);
    SearchFromLeftmost(filename, 0);
    if r.Some? {
      MatchAtIff(filename, r.value);
    }
    if k :| VersionTokenAt(filename, k) {
      MatchAtIff(filename, k);
    }
  }

  /** is_draft holds exactly when "draft" or "taslak" occurs in the lowered name. */
  lemma DraftFlagIff(filename: string)
    ensures ExtractVersionInfo(filename).isDraft <==>
      Occurs(Lower(filename), "draft") || Occurs(Lower(filename), "taslak")
  {
    ContainsIff(Lower(filename), "draft");
    ContainsIff(Lower(filename), "taslak");
  }

  /** is_final holds exactly when "final" or "son" occurs in the lowered name. */
  lemma FinalFlagIff(filename: string)
    ensures ExtractVersionInfo(filename).isFinal <==>
      Occurs(Lower(filename), "final") || Occurs(Lower(filename), "son")
  {
    ContainsIff(Lower(filename), "final");
    ContainsIff(Lower(filename), "son");
  }

  /** A character of sub that s lacks keeps sub out of s. */
  lemma {:induction false} NotContainsChar(s: string, sub: string, c: char)
    requires c in sub && c !in s
    ensures !Contains(s, sub)
    decreases |s|
  {
    if s != [] {
      NotContainsChar(s[1..], sub, c);
    }
  }

  /** In "Draft_v2.txt" the number after the first `v` followed by a digit is reported. */
  lemma DraftVersion()
    ensures VersionNumber("Draft_v2.txt") == Some("2")
  {
    var s := "Draft_v2.txt";
    assert MatchAt(s, 6) == Some((7, 8)) by {
      assert LowerChar(s[6]) == 'v' && IsDigit(s[7]);
      assert DigitsEnd(s, 8) == 8;
      assert DottedEnd(s, 8) == 8;
    }
    assert SearchFrom(s, 6) == Some(6);
    forall k | 0 <= k < 6
      ensures MatchAt(s, k).None?
    {
      assert LowerChar(s[k]) != 'v';
    }
    assert SearchFrom(s, 5) == SearchFrom(s, 6);
    assert SearchFrom(s, 4) == SearchFrom(s, 5);
    assert SearchFrom(s, 3) == SearchFrom(s, 4);
    assert SearchFrom(s, 2) == SearchFrom(s, 3);
    assert SearchFrom(s, 1) == SearchFrom(s, 2);
    assert SearchFrom(s, 0) == SearchFrom(s, 1);
    assert s[7..8] == "2";
  }

  /** The leftmost match of s at or after i is at p when p matches and nothing between i and p does. */
  lemma SearchFromAt(s: string, i: nat, p: nat)
    requires i <= p < |s| && MatchAt(s, p).Some?
    requires forall k :: i <= k < p ==> MatchAt(s, k).None?
    ensures SearchFrom(s, i) == Some(p)
  {
    FirstHitAt(Matches(s), |s|, i, p);
  }

  lemma {:induction false} FirstHitAt(hit: nat -> bool, n: nat, i: nat, p: nat)
    requires i <= p < n && hit(p)
    requires forall k :: i <= k < p ==> !hit(k)
    ensures FirstHit(hit, n, i) == Some(p)
    decreases p - i
  {
    if i < p {
      FirstHitAt(hit, n, i + 1, p);
    }
  }

  /** In "Project_Draft_v2.docx" the first `v` followed by a digit is at index 14. */
  lemma ProjectDraftNumber()
    ensures VersionNumber("Project_Draft_v2.docx") == Some("2")
  {
    var s := "Project_Draft_v2.docx";
    ProjectDraftMatch();
    ProjectDraftNoMatchLow();
    ProjectDraftNoMatchHigh();
    SearchFromAt(s, 0, 14);
    SingleSlice(s, 15);
  }

  lemma SingleSlice(s: string, i: nat)
    requires i < |s|
    ensures s[i..i + 1] == [s[i]]
  {
  }

  lemma ProjectDraftMatch()
    ensures 14 < |"Project_Draft_v2.docx"| && MatchAt("Project_Draft_v2.docx", 14) == Some((15, 16))
  {
    var s := "Project_Draft_v2.docx";
    assert LowerChar(s[14]) == 'v' && IsDigit(s[15]);
    assert DigitsEnd(s, 16) == 16;
    assert DottedEnd(s, 16) == 16;
  }

  lemma ProjectDraftNoMatchLow()
    ensures forall k :: 0 <= k < 7 ==> MatchAt("Project_Draft_v2.docx", k).None?
  {
    var s := "Project_Draft_v2.docx";
    forall k | 0 <= k < 7
      ensures MatchAt(s, k).None?
    {
      assert LowerChar(s[k]) != 'v';
    }
  }

  lemma ProjectDraftNoMatchHigh()
    ensures forall k :: 7 <= k < 14 ==> MatchAt("Project_Draft_v2.docx", k).None?
  {
    var s := "Project_Draft_v2.docx";
    forall k | 7 <= k < 14
      ensures MatchAt(s, k).None?
    {
      assert LowerChar(s[k]) != 'v';
    }
  }

  /** "Project_Draft_v2.docx" is a draft and not final: it has no `i` for "final" and no `s` for "son". */
  lemma ProjectDraftFlags()
    ensures IsDraftName("Project_Draft_v2.docx") && !IsFinalName("Project_Draft_v2.docx")
  {
    ProjectDraftLower();
    var l := Lower("Project_Draft_v2.docx");
    LoweredDraft(l);
    LoweredNotFinal(l);
  }

  lemma ProjectDraftLower()
    ensures Lower("Project_Draft_v2.docx") == "project_" + "draft" + "_v2.docx"
  {
    var a, d, b := "Project_", "Draft", "_v2.docx";
    assert a + d + b == "Project_Draft_v2.docx";
    LowerAppend(a + d, b);
    LowerAppend(a, d);
    LowerParts();
  }

  lemma LowerParts()
    ensures Lower("Project_") == "project_" && Lower("Draft") == "draft" && Lower("_v2.docx") == "_v2.docx"
  {
    LowerProject();
    assert Lower("Draft") == "draft";
    LowerSuffix();
  }

  lemma LowerProject()
    ensures Lower("Project_") == "project_"
  {
  }

  lemma LowerSuffix()
    ensures Lower("_v2.docx") == "_v2.docx"
  {
  }

  lemma LoweredDraft(l: string)
    requires l == "project_" + "draft" + "_v2.docx"
    ensures Contains(l, "draft")
  {
    assert l[8..13] == "draft";
    assert OccursAt(l, "draft", 8);
    ContainsIff(l, "draft");
  }

  lemma LoweredNotFinal(l: string)
    requires l == "project_" + "draft" + "_v2.docx"
    ensures !Contains(l, "final") && !Contains(l, "son")
  {
    assert 'i' !in l && 's' !in l;
    NotContainsChar(l, "final", 'i');
    NotContainsChar(l, "son", 's');
  }

  /** The descriptor of "Project_Draft_v2.docx": version "2", a draft, not final. */
  lemma ProjectDraftExample()
    ensures ExtractVersionInfo("Project_Draft_v2.docx") == VersionInfo(true, Some("2"), true, false)
  {
    ProjectDraftNumber();
    ProjectDraftFlags();
  }

  /** "person" contains "son", so it counts as final. */
  lemma PersonIsFinal()
    ensures ExtractVersionInfo("person").isFinal
  {
    var l := Lower("person");
    assert l == "person";
    assert OccursAt(l, "son", 3);
    ContainsIff(l, "son");
  }

  /** "Version 2.1.3b" reports "2.1.3": dots must be followed by digits, and matching is greedy. */
  lemma SpacedVersionExample()
    ensures VersionNumber("Version 2.1.3b") == Some("2.1.3")
  {
    var s := "Version 2.1.3b";
    assert Lower(s[0..7]) == "version";
    assert LowerChar(s[0]) == 'v' && !IsDigit(s[1]);
    assert SpacesEnd(s, 8) == 8;
    assert SpacesEnd(s, 7) == 8;
    assert DigitsEnd(s, 8) == 9;
    assert DigitsEnd(s, 10) == 11;
    assert DigitsEnd(s, 12) == 13;
    assert DottedEnd(s, 13) == 13;
    assert DottedEnd(s, 11) == 13;
    assert DottedEnd(s, 9) == 13;
    assert MatchAt(s, 0) == Some((8, 13));
    assert s[8..13] == "2.1.3";
  }

  // ------------------------------------------------------------------ keywords

  /** The MIME types whose first kilobyte is read for keywords. */
  predicate IsTextLike(mime: string)
  {
    "text/" <= mime
    || mime == "application/pdf"
    || mime == "application/msword"
    || mime == "application/vnd.openxmlformats-officedocument.wordprocessingml.document"
  }

  /** `[word.lower() for word in words if len(word) > 3]` */
  function LongWords(words: seq<string>): (r: seq<string>)
    ensures forall w :: w in r <==> exists t :: t in words && |t| > 3 && Lower(t) == w
  {
    if words == [] then []
    else
      var rest := LongWords(words[1..]);
      assert forall t :: t in words <==> t == words[0] || t in words[1..];
      if |words[0]| > 3 then [Lower(words[0])] + rest else rest
  }

  /** The distinct elements of ws, each at its first occurrence. */
  function Dedupe(ws: seq<string>): (r: seq<string>)
    ensures Distinct(r)
    ensures forall w :: w in r <==> w in ws
  {
    if ws == [] then []
    else
      var d := Dedupe(ws[..|ws| - 1]);
      assert forall w :: w in ws <==> w in ws[..|ws| - 1] || w == ws[|ws| - 1];
      if ws[|ws| - 1] in d then d else d + [ws[|ws| - 1]]
  }

  const MaxKeywords: nat := 20

  /**
   * `list(set(words))[:20]`. Python leaves the order of a set unspecified; this model keeps
   * first occurrences, and the contract below holds for every order.
   */
  function FilterKeywords(words: seq<string>): (r: seq<string>)
    ensures Distinct(r)
    ensures |r| <= MaxKeywords
    ensures forall w :: w in r ==> exists t :: t in words && |t| > 3 && Lower(t) == w
    ensures |r| < MaxKeywords ==> forall t :: t in words && |t| > 3 ==> Lower(t) in r
  {
    var d := Dedupe(LongWords(words));
    if |d| <= MaxKeywords then d
    else
      assert forall i, j :: 0 <= i < j < MaxKeywords ==> d[..MaxKeywords][i] == d[i] && d[..MaxKeywords][j] == d[j];
      assert forall w :: w in d[..MaxKeywords] ==> w in d;
      d[..MaxKeywords]
  }

  /**
   * extract_keywords once the file is read: nothing unless the MIME type is text-like,
   * and nothing when reading failed (tokens None); otherwise the filtered tokens.
   */
  function ExtractKeywords(mime: string, tokens: Option<seq<string>>): (r: seq<string>)
    ensures !IsTextLike(mime) || tokens.None? ==> r == []
    ensures IsTextLike(mime) && tokens.Some? ==> r == FilterKeywords(tokens.value)
  {
    if IsTextLike(mime) && tokens.Some? then FilterKeywords(tokens.value) else []
  }

  /** Every keyword is distinct, lowered, came from a token longer than three letters, and at most 20 are kept. */
  lemma KeywordsShape(mime: string, tokens: Option<seq<string>>)
    ensures var r := ExtractKeywords(mime, tokens);
      Distinct(r) && |r| <= MaxKeywords
      && forall w :: w in r ==> |w| > 3 && forall i :: 0 <= i < |w| ==> !IsUpper(w[i])
  {
    var r := ExtractKeywords(mime, tokens);
    if IsTextLike(mime) && tokens.Some? {
      forall w | w in r
        ensures |w| > 3 && forall i :: 0 <= i < |w| ==> !IsUpper(w[i])
      {
        var t :| t in tokens.value && |t| > 3 && Lower(t) == w;
      }
    }
  }

  // --------------------------------------------------------------- analyze_file

  const MiB: nat := 1024 * 1024
  /** Files strictly larger than this are skipped. */
  const SkipAbove: nat := 100 * MiB
  /** Keywords are extracted only from files strictly smaller than this. */
  const KeywordsBelow: nat := 10 * MiB
  /** extract_keywords reads this many bytes at most. */
  const ReadLimit: nat := 1000

  /**
   * What analyze_file learns from outside the modelled filesystem: the platform's MIME
   * guess, the modification and creation timestamps, whether the file opens for reading,
   * and the UTF-8 decoding and `\b\w+\b` tokenising of the bytes read.
   */
  datatype Env = Env(
    guess: Path -> Option<string>,
    times: Path -> (int, int),
    readable: Path -> bool,
    tokenize: seq<byte> -> seq<string>)

  /** The tokens extract_keywords sees, or None when the file cannot be opened. */
  function ReadTokens(t: Tree, path: Path, env: Env): Option<seq<string>>
    requires path in t && t[path].File?
  {
    var content := t[path].content;
    if env.readable(path) then
      Some(env.tokenize(content[..if |content| < ReadLimit then |content| else ReadLimit]))
    else None
  }

  /**
   * analyze_file: None for a missing path (and, in this model, a directory) and for a
   * file over 100 MiB; otherwise its descriptor, with keywords only under 10 MiB.
   */
  function AnalyzeFile(table: Dict<string>, t: Tree, path: Path, env: Env): (r: Option<FileInfo>)
    ensures r.Some? <==> path in t && t[path].File? && |t[path].content| <= SkipAbove
    ensures r.Some? ==> (r.value.keywords.Some? <==> |t[path].content| < KeywordsBelow)
    ensures r.Some? ==> r.value.path == Some(path) && r.value.name == Some(Basename(path))
    ensures r.Some? ==> r.value.size == Some(|t[path].content|)
    ensures r.Some? ==> r.value.extension.Some? && r.value.mimeType.Some? && r.value.versionInfo.Some?
    ensures r.Some? ==>
      && r.value.extension == Some(LowerExtension(path))
      && r.value.mimeType == Some(GetMimeType(table, path, env.guess(path)))
      && r.value.versionInfo == Some(ExtractVersionInfo(Basename(path)))
      && r.value.modifiedDate == Some(env.times(path).0) && r.value.creationDate == Some(env.times(path).1)
    ensures r.Some? && r.value.keywords.Some? ==>
      r.value.keywords.value == ExtractKeywords(r.value.mimeType.value, ReadTokens(t, path, env))
  {
    if path !in t || t[path].Dir? || |t[path].content| > SkipAbove then None
    else
      var size := |t[path].content|;
      var filename := Basename(path);
      var mime := GetMimeType(table, path, env.guess(path));
      var info := FileInfo(
        Some(path), Some(filename), Some(LowerExtension(path)), Some(size),
        Some(env.times(path).0), Some(env.times(path).1), Some(mime),
        Some(ExtractVersionInfo(filename)), None);
      if size < KeywordsBelow then
        Some(info.(keywords := Some(ExtractKeywords(mime, ReadTokens(t, path, env)))))
      else Some(info)
  }

  /**
   * A descriptor's extension is the splitext suffix of the file's name, lowered: empty or a dot
   * followed by lower-case characters without a dot, and the name ends with it up to case.
   */
  lemma AnalyzedExtension(table: Dict<string>, t: Tree, path: Path, env: Env)
    ensures AnalyzeFile(table, t, path, env).Some? ==>
      var e := AnalyzeFile(table, t, path, env).value.extension.value;
      var name := Basename(path);
      && e == Lower(SplitExt(name).1)
      && (e == [] || (e[0] == '.' && '.' !in e[1..])) && (forall i :: 0 <= i < |e| ==> !IsUpper(e[i]))
      && |e| <= |name| && Lower(name[|name| - |e|..]) == e
  {
    if AnalyzeFile(table, t, path, env).Some? {
      var name := Basename(path);
      var (stem, ext) := SplitExt(name);
      assert name[|name| - |ext|..] == ext;
    }
  }

  /** A 100 MiB file is kept; one byte more and it is skipped. */
  lemma SizeBoundary(table: Dict<string>, t: Tree, path: Path, env: Env)
    requires path in t && t[path].File?
    ensures |t[path].content| == SkipAbove ==> AnalyzeFile(table, t, path, env).Some?
    ensures |t[path].content| == SkipAbove + 1 ==> AnalyzeFile(table, t, path, env).None?
    ensures |t[path].content| == KeywordsBelow ==> AnalyzeFile(table, t, path, env).value.keywords.None?
  {
  }

  // ------------------------------------------------------------- scan_directory

  /** One os.walk step: a directory and the names of the files in it. */
  type WalkStep = (Path, seq<string>)

  /** analyze_file on one disk with its environment, as a function of the path. */
  function AnalysisOf(table: Dict<string>, t: Tree, env: Env): Path -> Option<FileInfo>
  {
    p => AnalyzeFile(table, t, p, env)
  }

  /** The descriptors of names in root, in order, skipping the files the analysis rejects. */
  function ScanNames(an: Path -> Option<FileInfo>, root: Path, names: seq<string>): seq<FileInfo>
  {
    if names == [] then []
    else
      ScanNames(an, root, names[..|names| - 1])
      + match an(root + [names[|names| - 1]])
        case Some(f) => [f]
        case None => []
  }

  /** scan_directory's result over a given walk order, with analysis an (AnalysisOf for the disk). */
  function Scan(an: Path -> Option<FileInfo>, walk: seq<WalkStep>): seq<FileInfo>
  {
    if walk == [] then []
    else Scan(an, walk[..|walk| - 1]) + ScanNames(an, walk[|walk| - 1].0, walk[|walk| - 1].1)
  }

  /** A descriptor is in ScanNames exactly when it is the analysis of one of the names. */
  lemma {:induction false} ScanNamesMembers(an: Path -> Option<FileInfo>, root: Path, names: seq<string>, f: FileInfo)
    ensures f in ScanNames(an, root, names) <==> exists n :: n in names && an(root + [n]) == Some(f)
    decreases |names|
  {
    if names != [] {
      var init := names[..|names| - 1];
      ScanNamesMembers(an, root, init, f);
      assert forall n :: n in names <==> n in init || n == names[|names| - 1];
    }
  }

  /**
   * scan_directory keeps exactly the successful analyses: a descriptor is in the result
   * iff it is the analysis of some walked file.
   */
  lemma {:induction false} ScanMembers(an: Path -> Option<FileInfo>, walk: seq<WalkStep>, f: FileInfo)
    ensures f in Scan(an, walk) <==> exists s, n :: s in walk && n in s.1 && an(s.0 + [n]) == Some(f)
    decreases |walk|
  {
    if walk != [] {
      var init := walk[..|walk| - 1];
      var last := walk[|walk| - 1];
      ScanMembers(an, init, f);
      ScanNamesMembers(an, last.0, last.1, f);
      assert forall s :: s in walk <==> s in init || s == last;
    }
  }

  /** The number of file names a walk lists. */
  function WalkSize(walk: seq<WalkStep>): nat
  {
    if walk == [] then 0 else WalkSize(walk[..|walk| - 1]) + |walk[|walk| - 1].1|
  }

  lemma {:induction false} ScanNamesSize(an: Path -> Option<FileInfo>, root: Path, names: seq<string>)
    ensures |ScanNames(an, root, names)| <= |names|
    decreases |names|
  {
    if names != [] {
      ScanNamesSize(an, root, names[..|names| - 1]);
    }
  }

  /** The scan yields at most one descriptor per walked file. */
  lemma {:induction false} ScanSize(an: Path -> Option<FileInfo>, walk: seq<WalkStep>)
    ensures |Scan(an, walk)| <= WalkSize(walk)
    decreases |walk|
  {
    if walk != [] {
      ScanSize(an, walk[..|walk| - 1]);
      ScanNamesSize(an, walk[|walk| - 1].0, walk[|walk| - 1].1);
    }
  }

  /**
   * walk is an os.walk of root over t, in some order: every step names a folder at or under root,
   * once, with exactly the files directly in it, each once; and every folder under root has a step.
   */
  ghost predicate Covers(t: Tree, root: Path, walk: seq<WalkStep>)
  {
    && (forall i :: 0 <= i < |walk| ==> root <= walk[i].0 && walk[i].0 in t && t[walk[i].0].Dir?)
    && (forall i, n :: 0 <= i < |walk| ==>
          (n in walk[i].1 <==> walk[i].0 + [n] in t && t[walk[i].0 + [n]].File?))
    && (forall i, a, b :: 0 <= i < |walk| && 0 <= a < b < |walk[i].1| ==> walk[i].1[a] != walk[i].1[b])
    && (forall i, j :: 0 <= i < j < |walk| ==> walk[i].0 != walk[j].0)
    && (forall d :: d in t && t[d].Dir? && root <= d ==> exists i :: 0 <= i < |walk| && walk[i].0 == d)
  }

  /**
   * Over a walk that covers root, scan_directory holds the descriptor of every file under root
   * that analyze_file accepts, and nothing else.
   */
  lemma ScanCovers(table: Dict<string>, t: Tree, root: Path, walk: seq<WalkStep>, env: Env)
    requires WellFormed(t) && Covers(t, root, walk)
    ensures forall p :: p in t && t[p].File? && root < p && |t[p].content| <= SkipAbove ==>
      AnalyzeFile(table, t, p, env).Some? && AnalyzeFile(table, t, p, env).value in Scan(AnalysisOf(table, t, env), walk)
    ensures forall f :: f in Scan(AnalysisOf(table, t, env), walk) ==>
      exists p :: p in t && t[p].File? && root < p && AnalyzeFile(table, t, p, env) == Some(f)
  {
    var an := AnalysisOf(table, t, env);
    forall p
      ensures an(p).Some? <==> p in t && t[p].File? && |t[p].content| <= SkipAbove
    {
    }
    ScanCoversBy(an, t, root, walk);
  }

  /** ScanCovers for any analysis that accepts exactly the files of at most 100 MiB. */
  lemma ScanCoversBy(an: Path -> Option<FileInfo>, t: Tree, root: Path, walk: seq<WalkStep>)
    requires WellFormed(t) && Covers(t, root, walk)
    requires forall p :: an(p).Some? <==> p in t && t[p].File? && |t[p].content| <= SkipAbove
    ensures forall p :: p in t && t[p].File? && root < p && |t[p].content| <= SkipAbove ==>
      an(p).Some? && an(p).value in Scan(an, walk)
    ensures forall f :: f in Scan(an, walk) ==>
      exists p :: p in t && t[p].File? && root < p && an(p) == Some(f)
  {
    forall p | p in t && t[p].File? && root < p && |t[p].content| <= SkipAbove
      ensures an(p).Some? && an(p).value in Scan(an, walk)
    {
      assert p != [] && InDir(t, p);
      var d := Dirname(p);
      assert root <= d;
      var i :| 0 <= i < |walk| && walk[i].0 == d;
      var n := Basename(p);
      assert d + [n] == p;
      assert n in walk[i].1;
      var f := an(p).value;
      assert an(walk[i].0 + [n]) == Some(f);
      ScanMembers(an, walk, f);
    }
    forall f | f in Scan(an, walk)
      ensures exists p :: p in t && t[p].File? && root < p && an(p) == Some(f)
    {
      ScanMembers(an, walk, f);
      var st, n :| st in walk && n in st.1 && an(st.0 + [n]) == Some(f);
      var i :| 0 <= i < |walk| && walk[i] == st;
      assert root < st.0 + [n];
    }
  }

  /** scan_directory: the nested walk loop, with the walk order given. */
  method ScanDirectory(table: Dict<string>, disk: Disk, walk: seq<WalkStep>, env: Env) returns (filesInfo: seq<FileInfo>)
    ensures filesInfo == Scan(AnalysisOf(table, disk.tree, env), walk)
  {
    ghost var an := AnalysisOf(table, disk.tree, env);
    filesInfo := [];
    var w := 0;
    while w < |walk|
      invariant 0 <= w <= |walk|
      invariant filesInfo == Scan(an, walk[..w])
    {
      var (root, files) := walk[w];
      var found := ScanFolder(table, disk, root, files, env);
      filesInfo := filesInfo + found;
      assert walk[..w + 1][..w] == walk[..w];
      w := w + 1;
    }
    assert walk[..w] == walk;
  }

  /** The inner loop of scan_directory: the files of one walked folder, in order. */
  method ScanFolder(table: Dict<string>, disk: Disk, root: Path, files: seq<string>, env: Env) returns (found: seq<FileInfo>)
    ensures found == ScanNames(AnalysisOf(table, disk.tree, env), root, files)
  {
    ghost var an := AnalysisOf(table, disk.tree, env);
    found := [];
    var n := 0;
    while n < |files|
      invariant 0 <= n <= |files|
      invariant found == ScanNames(an, root, files[..n])
    {
      var filePath := root + [files[n]];
      var fileInfo := AnalyzeFile(table, disk.tree, filePath, env);
      assert fileInfo == an(filePath);
      assert files[..n + 1][..n] == files[..n];
      if fileInfo.Some? {
        found := found + [fileInfo.value];
      }
      n := n + 1;
    }
    assert files[..n] == files;
  }
}
