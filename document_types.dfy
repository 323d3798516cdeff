/** The document model shared by the pages, hooks and components
    (src/lib/documentTypes.ts): statuses, versions, documents, staged
    uploads, and the title derived from a file name. */
module DocumentTypes {
  import opened Wrappers
  import opened Text

  /** The four statuses a document version can have. */
  datatype Status = Active | Pending | Inactive | Deleted

  /** One uploaded file of a document. Times are milliseconds. The in-memory
      page creates versions without a storage path; the read side fills it. */
  datatype Version = Version(
    id: string,
    filename: string,
    storagePath: Option<string>,
    uploadedAt: int,
    status: Status)

  /** A document with its versions, newest first, and the version shown as
      current. */
  datatype Document = Document(
    id: string,
    title: string,
    filename: string,
    storagePath: Option<string>,
    category: Option<string>,
    createdAt: int,
    currentVersion: Version,
    versions: seq<Version>)

  /** The part of a browser `File` that the core reads. */
  datatype UploadFile = UploadFile(name: string, size: nat)

  /** A file chosen for upload and not yet confirmed. */
  datatype StagedFile = StagedFile(
    file: UploadFile,
    title: string,
    category: Option<string>,
    isReplacement: bool,
    existingDocumentId: Option<string>)

  /** The filter value that stands for "documents without a category". */
  const UncategorizedKey := "__uncategorized__"

  /** JavaScript truthiness of an optional string: present and not empty. */
  predicate Truthy(s: Option<string>) {
    s.Some? && s.value != ""
  }

  /** The document has a category (`!!doc.category`). */
  predicate HasCategory(d: Document) {
    Truthy(d.category)
  }

  /** `c` is the category `path` itself or lies in its subtree. */
  predicate AtOrUnder(c: string, path: string) {
    c == path || StartsWith(c, path + "/")
  }

  // ---------------------------------------------------------------------
  // generateTitleFromFilename

  /** The regular expression `\.[^/.]+$` matches at position `i` of `s`. */
  predicate ExtensionAt(s: string, i: int) {
    0 <= i < |s| - 1 && s[i] == '.' && forall j :: i < j < |s| ==> s[j] != '.' && s[j] != '/'
  }

  /** The length of the longest suffix free of '.' and '/'. */
  function TrailingNameRun(s: string): (n: nat)
    ensures n <= |s|
    ensures forall j :: |s| - n <= j < |s| ==> s[j] != '.' && s[j] != '/'
    ensures n == |s| || s[|s| - n - 1] == '.' || s[|s| - n - 1] == '/'
    decreases |s|
  {
    if |s| == 0 || s[|s| - 1] == '.' || s[|s| - 1] == '/' then 0
    else TrailingNameRun(s[..|s| - 1]) + 1
  }

  /** Where the extension starts, or -1: the only position at which
      `\.[^/.]+$` can match. */
  function ExtensionDot(s: string): (r: int)
    ensures r == -1 || ExtensionAt(s, r)
    ensures r == -1 ==> forall i :: !ExtensionAt(s, i)
  {
    var n := TrailingNameRun(s);
    if 1 <= n < |s| && s[|s| - n - 1] == '.' then |s| - n - 1
    else
      assert forall i :: ExtensionAt(s, i) ==> i == |s| - n - 1 by {
        forall i | ExtensionAt(s, i) ensures i == |s| - n - 1 {
        }
      }
      -1
  }

  /** `filename.replace(/\.[^/.]+$/, "")`. */
  function StripExtension(name: string): (r: string)
    ensures StartsWith(name, r)
  {
    var i := ExtensionDot(name);
    if i < 0 then name else name[..i]
  }

  /** `s.replace(/[-_]/g, " ")`. */
  function DashesToSpaces(s: string): (r: string)
    ensures |r| == |s|
    ensures forall i :: 0 <= i < |s| ==> r[i] == (if s[i] == '-' || s[i] == '_' then ' ' else s[i])
  {
    seq(|s|, i requires 0 <= i < |s| => if s[i] == '-' || s[i] == '_' then ' ' else s[i])
  }

  /** `s.charAt(0).toUpperCase() + s.slice(1)`. */
  function CapitalizeFirst(s: string): string {
    if |s| == 0 then "" else [UpperChar(s[0])] + s[1..]
  }

  /** The title proposed for a newly chosen file. */
  function GenerateTitleFromFilename(filename: string): (r: string)
    ensures |r| <= |filename|
    ensures forall i :: 1 <= i < |r| ==> r[i] != '-' && r[i] != '_'
  {
    CapitalizeFirst(DashesToSpaces(StripExtension(filename)))
  }

  /** Only the last extension goes, and only when it is non-empty and has no
      '/': everything before its '.' stays, and a name without one is kept. */
  lemma StripExtensionSpec(name: string)
    ensures (exists i :: ExtensionAt(name, i)) ==>
              exists i :: ExtensionAt(name, i) && StripExtension(name) == name[..i]
    ensures (forall i :: !ExtensionAt(name, i)) ==> StripExtension(name) == name
    ensures forall i, j :: ExtensionAt(name, i) && ExtensionAt(name, j) ==> i == j
  {
    forall i, j | ExtensionAt(name, i) && ExtensionAt(name, j) ensures i == j {
    }
  }

  /** The title keeps the length of the stem, has no '-' or '_', upper-cases
      only the first character, and leaves the rest of the stem as it was. */
  lemma GenerateTitleSpec(filename: string)
    ensures var stem := StripExtension(filename);
            var t := GenerateTitleFromFilename(filename);
            && |t| == |stem|
            && (forall i :: 0 <= i < |t| ==> t[i] != '-' && t[i] != '_')
            && (|t| > 0 ==> t[0] == UpperChar(DashesToSpaces(stem)[0]))
            && (forall i :: 1 <= i < |t| ==> t[i] == DashesToSpaces(stem)[i])
  {
  }

  /** Only the last of several extensions is removed. */
  lemma TitleExampleLastExtension()
    ensures GenerateTitleFromFilename("a.tar.gz") == "A.tar"
  {
    assert ExtensionDot("a.tar.gz") == 5 by {
      assert TrailingNameRun("a.tar.") == 0;
      assert "a.tar.g"[..6] == "a.tar.";
      assert TrailingNameRun("a.tar.g") == 1;
      assert "a.tar.gz"[..7] == "a.tar.g";
      assert TrailingNameRun("a.tar.gz") == 2;
    }
    assert "a.tar.gz"[..5] == "a.tar";
  }

  /** Dashes and underscores become spaces and the first letter is capitalised. */
  lemma TitleExampleDashes()
    ensures GenerateTitleFromFilename("my_file-v2.pdf") == "My file v2"
  {
    assert ExtensionDot("my_file-v2.pdf") == 10 by {
      assert TrailingNameRun("my_file-v2.") == 0;
      assert "my_file-v2.p"[..11] == "my_file-v2.";
      assert TrailingNameRun("my_file-v2.p") == 1;
      assert "my_file-v2.pd"[..12] == "my_file-v2.p";
      assert TrailingNameRun("my_file-v2.pd") == 2;
      assert "my_file-v2.pdf"[..13] == "my_file-v2.pd";
      assert TrailingNameRun("my_file-v2.pdf") == 3;
    }
    assert "my_file-v2.pdf"[..10] == "my_file-v2";
  }

  /** A trailing '.' is not an extension. */
  lemma TitleExampleTrailingDot()
    ensures GenerateTitleFromFilename("notes.") == "Notes."
  {
    assert TrailingNameRun("notes.") == 0;
  }

  /** A '.' before a '/' is not an extension. */
  lemma TitleExampleDotInDirectory()
    ensures GenerateTitleFromFilename("v.2/doc") == "V.2/doc"
  {
    assert ExtensionDot("v.2/doc") == -1 by {
      assert TrailingNameRun("v.2/") == 0;
      assert "v.2/d"[..4] == "v.2/";
      assert TrailingNameRun("v.2/d") == 1;
      assert "v.2/do"[..5] == "v.2/d";
      assert TrailingNameRun("v.2/do") == 2;
      assert "v.2/doc"[..6] == "v.2/do";
      assert TrailingNameRun("v.2/doc") == 3;
    }
  }

  /** A dot-file has an empty title. */
  lemma TitleExampleDotFile()
    ensures GenerateTitleFromFilename(".pdf") == ""
  {
    assert ExtensionDot(".pdf") == 0 by {
      assert TrailingNameRun(".") == 0;
      assert ".p"[..1] == ".";
      assert TrailingNameRun(".p") == 1;
      assert ".pd"[..2] == ".p";
      assert TrailingNameRun(".pd") == 2;
      assert ".pdf"[..3] == ".pd";
      assert TrailingNameRun(".pdf") == 3;
    }
  }
}
