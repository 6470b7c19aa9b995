/**
 * app/index.py: the `Indexer` helpers around the upload. `scan_folder`
 * walks a directory tree (the walk is a parameter: the `(root, files)`
 * entries `os.walk` yields for a root) and lists the image files, at most
 * `MAX_DOCS` of them; `generate_id` writes a 64-bit value as 16 hex
 * digits; and a failed upload whose message mentions the document limit
 * ends the indexing.
 */
module Index {
  import opened Text

  /** `MAX_DOCS`, the most files one scan lists. */
  const MaxDocs: nat := 5000

  /** One directory of the walk: its path and the names of the files in it. */
  datatype WalkEntry = WalkEntry(root: string, files: seq<string>)

  /** The root after `rstrip(os.sep)`, which is applied only to roots longer than one character. */
  function NormalizeRoot(rootDir: string, sep: char): (r: string)
    ensures |rootDir| <= 1 ==> r == rootDir
    ensures |rootDir| > 1 ==> r == TrimRight(rootDir, sep) && (r == [] || r[|r| - 1] != sep)
    ensures r == rootDir[..|r|] && forall k :: |r| <= k < |rootDir| ==> rootDir[k] == sep
  {
    if |rootDir| > 1 then TrimRight(rootDir, sep) else rootDir
  }

  /** `fname.lower().endswith(supported_formats)`. */
  predicate Supported(fname: string, formats: seq<string>)
  {
    EndsWithAny(ToLower(fname), formats)
  }

  /** The path `scan_folder` lists for a file. */
  function PathOf(root: string, sep: char, fname: string): string
  {
    root + [sep] + fname
  }

  /** How many entries at the front of the walk are the root itself; a non-recursive scan stops at the first other. */
  function RootRun(entries: seq<WalkEntry>, root: string): (n: nat)
    ensures n <= |entries|
    ensures forall k :: 0 <= k < n ==> entries[k].root == root
    ensures n < |entries| ==> entries[n].root != root
    decreases |entries|
  {
    if entries == [] || entries[0].root != root then 0 else 1 + RootRun(entries[1..], root)
  }

  /** The entries the loop gets to: all of them, or when not recursive those before the first other directory. */
  function Visited(entries: seq<WalkEntry>, root: string, recursive: bool): seq<WalkEntry>
  {
    if recursive then entries else entries[..RootRun(entries, root)]
  }

  /** The paths of the supported files of one directory, in order. */
  function FileMatches(root: string, sep: char, formats: seq<string>, files: seq<string>): seq<string>
    decreases |files|
  {
    if files == [] then []
    else
      (if Supported(files[0], formats) then [PathOf(root, sep, files[0])] else [])
      + FileMatches(root, sep, formats, files[1..])
  }

  /** The paths of the supported files of all the entries, in walk order. */
  function Matches(entries: seq<WalkEntry>, sep: char, formats: seq<string>): seq<string>
    decreases |entries|
  {
    if entries == [] then []
    else FileMatches(entries[0].root, sep, formats, entries[0].files) + Matches(entries[1..], sep, formats)
  }

  /** The first `MaxDocs` of the paths, or all of them. */
  function Capped(paths: seq<string>): (r: seq<string>)
    ensures |r| <= MaxDocs && |r| <= |paths| && r == paths[..|r|]
    ensures |paths| <= MaxDocs ==> r == paths
  {
    if |paths| <= MaxDocs then paths else paths[..MaxDocs]
  }

  /** What `scan_folder` returns, for the walk `walk(root)` of the normalized root. */
  function ScanFolderResult(rootDir: string, recursive: bool, sep: char, formats: seq<string>,
                            walk: string -> seq<WalkEntry>): seq<string>
  {
    var root := NormalizeRoot(rootDir, sep);
    Capped(Matches(Visited(walk(root), root, recursive), sep, formats))
  }

  /**
   * `scan_folder`: a file is counted only when it is supported, and the
   * cap is checked before the count goes up, so the scan returns as soon
   * as a supported file would be the 5001st.
   */
  method ScanFolder(rootDir: string, recursive: bool, sep: char, formats: seq<string>,
                    walk: string -> seq<WalkEntry>) returns (imageList: seq<string>)
    ensures imageList == ScanFolderResult(rootDir, recursive, sep, formats, walk)
    ensures |imageList| <= MaxDocs
  {
    var root := NormalizeRoot(rootDir, sep);
    var entries := walk(root);
    ghost var visited := Visited(entries, root, recursive);
    ghost var all := Matches(visited, sep, formats);
    var count := 0;
    imageList := [];
    var i := 0;
    while i < |entries|
      invariant i <= |visited| <= |entries| && visited == entries[..|visited|]
      invariant recursive ==> visited == entries
      invariant count == |imageList| <= MaxDocs
      invariant imageList + Matches(visited[i..], sep, formats) == all
    {
      var entry := entries[i];
      if !recursive && root != entry.root {
        break;
      }
      ghost var before := imageList;
      ghost var later := Matches(visited[i + 1..], sep, formats);
      MatchesUnfold(visited, i, sep, formats);
      var capped;
      imageList, count, capped := ScanFiles(entry.root, sep, formats, entry.files, imageList, count);
      if capped {
        AppendAssoc(before, FileMatches(entry.root, sep, formats, entry.files), later);
        assert imageList == (before + FileMatches(entry.root, sep, formats, entry.files))[..MaxDocs];
        return;
      }
      AppendAssoc(before, FileMatches(entry.root, sep, formats, entry.files), later);
      i := i + 1;
    }
    assert visited[i..] == [];
  }

  /**
   * The inner loop of `scan_folder` over one directory's files: the paths
   * of its supported files are appended in order, unless the list reaches
   * `MaxDocs` while one is left, in which case the scan stops (`capped`).
   */
  method ScanFiles(root: string, sep: char, formats: seq<string>, files: seq<string>,
                   imageList: seq<string>, count: nat)
    returns (imageList': seq<string>, count': nat, capped: bool)
    requires count == |imageList| <= MaxDocs
    ensures count' == |imageList'| <= MaxDocs
    ensures !capped ==> imageList' == imageList + FileMatches(root, sep, formats, files)
    ensures capped ==> |imageList'| == MaxDocs && imageList' < imageList + FileMatches(root, sep, formats, files)
  {
    imageList', count', capped := imageList, count, false;
    assert files[0..] == files;
    for j := 0 to |files|
      invariant count' == |imageList'| <= MaxDocs
      invariant imageList' + FileMatches(root, sep, formats, files[j..]) == imageList + FileMatches(root, sep, formats, files)
    {
      var fname := files[j];
      ghost var rest := FileMatches(root, sep, formats, files[j + 1..]);
      assert files[j..][0] == fname && files[j..][1..] == files[j + 1..];
      if !Supported(fname, formats) {
        assert FileMatches(root, sep, formats, files[j..]) == rest;
        continue;
      }
      var path := PathOf(root, sep, fname);
      assert FileMatches(root, sep, formats, files[j..]) == [path] + rest;
      AppendAssoc(imageList', [path], rest);
      if count' >= MaxDocs {
        capped := true;
        return;
      }
      count' := count' + 1;
      imageList' := imageList' + [path];
    }
    assert files[|files|..] == [];
  }

  /** The walk from entry i on: that entry's matches, then the rest. */
  lemma MatchesUnfold(entries: seq<WalkEntry>, i: nat, sep: char, formats: seq<string>)
    requires i < |entries|
    ensures Matches(entries[i..], sep, formats)
         == FileMatches(entries[i].root, sep, formats, entries[i].files) + Matches(entries[i + 1..], sep, formats)
  {
    assert entries[i..][1..] == entries[i + 1..];
  }

  /** Every listed path is a supported file of a visited directory, written as root, separator, name. */
  lemma {:induction false} MatchesShape(entries: seq<WalkEntry>, sep: char, formats: seq<string>, p: string)
    requires p in Matches(entries, sep, formats)
    ensures exists e, f :: e in entries && f in e.files && Supported(f, formats) && p == PathOf(e.root, sep, f)
    decreases |entries|
  {
    var e := entries[0];
    if p in FileMatches(e.root, sep, formats, e.files) {
      var f := FileMatchesShape(e.root, sep, formats, e.files, p);
    } else {
      MatchesShape(entries[1..], sep, formats, p);
      var e', f :| e' in entries[1..] && f in e'.files && Supported(f, formats) && p == PathOf(e'.root, sep, f);
    }
  }

  lemma {:induction false} FileMatchesShape(root: string, sep: char, formats: seq<string>, files: seq<string>, p: string)
    returns (f: string)
    requires p in FileMatches(root, sep, formats, files)
    ensures f in files && Supported(f, formats) && p == PathOf(root, sep, f)
    decreases |files|
  {
    if Supported(files[0], formats) && p == PathOf(root, sep, files[0]) {
      f := files[0];
    } else {
      f := FileMatchesShape(root, sep, formats, files[1..], p);
    }
  }

  /** Conversely, every supported file of a visited directory is listed (before the cap applies). */
  lemma {:induction false} MatchesComplete(entries: seq<WalkEntry>, sep: char, formats: seq<string>, e: WalkEntry, f: string)
    requires e in entries && f in e.files && Supported(f, formats)
    ensures PathOf(e.root, sep, f) in Matches(entries, sep, formats)
    decreases |entries|
  {
    if e == entries[0] {
      FileMatchesComplete(e.root, sep, formats, e.files, f);
    } else {
      MatchesComplete(entries[1..], sep, formats, e, f);
    }
  }

  lemma {:induction false} FileMatchesComplete(root: string, sep: char, formats: seq<string>, files: seq<string>, f: string)
    requires f in files && Supported(f, formats)
    ensures PathOf(root, sep, f) in FileMatches(root, sep, formats, files)
    decreases |files|
  {
    if f != files[0] {
      FileMatchesComplete(root, sep, formats, files[1..], f);
    }
  }

  /** Without recursion only the directories that are the root itself are visited. */
  lemma NonRecursiveStaysInRoot(entries: seq<WalkEntry>, root: string, e: WalkEntry)
    requires e in Visited(entries, root, false)
    ensures e.root == root
  {
    var k :| 0 <= k < RootRun(entries, root) && entries[k] == e;
  }

  // ---------------------------------------------------------------------
  // Document ids

  /** 2^64: `getrandbits(64)` stays below it. */
  const IdBound: nat := 0x1_0000_0000_0000_0000

  predicate IsLowerHex(ch: char)
  {
    '0' <= ch <= '9' || 'a' <= ch <= 'f'
  }

  function HexDigit(d: nat): (ch: char)
    requires d < 16
    ensures IsLowerHex(ch)
  {
    if d < 10 then ('0' as int + d) as char else ('a' as int + d - 10) as char
  }

  function HexValue(ch: char): nat
    requires IsLowerHex(ch)
  {
    if ch <= '9' then ch as int - '0' as int else ch as int - 'a' as int + 10
  }

  function Pow16(width: nat): (p: nat)
    ensures p >= 1
  {
    if width == 0 then 1 else 16 * Pow16(width - 1)
  }

  /** `'%0<width>x' % n` for an `n` that fits in `width` hex digits: its digits, lower case, most significant first, zero padded. */
  function Hex(n: nat, width: nat): (r: string)
    requires n < Pow16(width)
    ensures |r| == width && forall k :: 0 <= k < width ==> IsLowerHex(r[k])
  {
    if width == 0 then [] else Hex(n / 16, width - 1) + [HexDigit(n % 16)]
  }

  /** The number a string of hex digits denotes. */
  function ParseHex(s: string): nat
    requires forall k :: 0 <= k < |s| ==> IsLowerHex(s[k])
  {
    if s == [] then 0 else ParseHex(s[..|s| - 1]) * 16 + HexValue(s[|s| - 1])
  }

  /** A number below 16^width is written in `width` digits and reads back as itself. */
  lemma {:induction false} HexRoundTrip(n: nat, width: nat)
    requires n < Pow16(width)
    ensures ParseHex(Hex(n, width)) == n
  {
    if width > 0 {
      var r := Hex(n, width);
      HexRoundTrip(n / 16, width - 1);
      assert r[..|r| - 1] == Hex(n / 16, width - 1);
      assert HexValue(HexDigit(n % 16)) == n % 16;
    }
  }

  lemma Pow16Is2To64()
    ensures Pow16(16) == IdBound
  {
    assert Pow16(4) == 0x1_0000;
    assert Pow16(8) == 0x1_0000_0000;
    assert Pow16(12) == 0x1_0000_0000_0000;
  }

  /** `generate_id` given the 64 random bits: always 16 lower-case hex digits. */
  function FormatId(bits: nat): (r: string)
    requires bits < IdBound
    ensures |r| == 16 && forall k :: 0 <= k < 16 ==> IsLowerHex(r[k])
  {
    Pow16Is2To64();
    Hex(bits, 16)
  }

  /** The id reads back as the bits it came from, so different bits give different ids. */
  lemma FormatIdRoundTrip(bits: nat)
    requires bits < IdBound
    ensures ParseHex(FormatId(bits)) == bits
  {
    Pow16Is2To64();
    HexRoundTrip(bits, 16);
  }

  lemma FormatIdInjective(a: nat, b: nat)
    requires a < IdBound && b < IdBound && FormatId(a) == FormatId(b)
    ensures a == b
  {
    FormatIdRoundTrip(a);
    FormatIdRoundTrip(b);
  }

  // ---------------------------------------------------------------------
  // The document-limit check

  const DocumentLimit: string := "document limit"

  /** Whether a failed upload's message reports the plan's document limit, in any letter case. */
  function IsDocumentLimit(message: string): (b: bool)
    ensures b <==> exists i :: OccursAt(ToLower(message), DocumentLimit, i)
  {
    Contains(ToLower(message), DocumentLimit)
  }

  /** Any spelling of the phrase, in any context, is recognised. */
  lemma DocumentLimitAnywhere(before: string, phrase: string, after: string)
    requires ToLower(phrase) == DocumentLimit
    ensures IsDocumentLimit(before + phrase + after)
  {
    var m := ToLower(before + phrase + after);
    assert m[|before|..|before| + |phrase|] == ToLower(phrase);
    assert OccursAt(m, DocumentLimit, |before|);
  }

  /** The check ignores letter case. */
  lemma DocumentLimitIgnoresCase(message: string)
    ensures IsDocumentLimit(ToLower(message)) == IsDocumentLimit(message)
  {
    ToLowerIdempotent(message);
  }
}
