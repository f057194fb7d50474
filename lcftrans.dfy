/** A model of the file bookkeeping of lcftrans, the translation tool for
    RPG Maker 2000/2003 games: which game files it hands to which extractor,
    how it finds existing translation files case-insensitively, how it
    resolves the text encoding, how it pairs `.po` files in match mode, and
    how it names and counts what it reports.

    Directory listings enter as sequences of names; the extractors, the
    translation files themselves and the lcf library's encoding services are
    outside the model and enter as their results. */
module LcfTrans {
  import opened Text

  const DATABASE_FILE: string := "rpg_rt.ldb"
  const MAPTREE_FILE: string := "rpg_rt.lmt"
  const INI_FILE: string := "rpg_rt.ini"
  const MAP_EXT: string := ".lmu"
  const PO_EXT: string := ".po"
  const UNMATCHED_SUFFIX: string := ".unmatched.po"
  /** The range of `std::string::size_type` on an LP64 host. */
  const SIZE_RANGE := 0x1_0000_0000_0000_0000
  /** The exit code for an encoding the encoder rejects. */
  const EXIT_BAD_ENCODING := 3

  datatype Option<T> = None | Some(value: T)

  /** A directory entry as lcftrans keeps it: the name as read and its
      lower-case form. */
  datatype FileEntry = FileEntry(name: string, lower: string)

  /** The entry lcftrans records for a name it reads from a directory. */
  function Entry(name: string): (e: FileEntry)
    ensures e.name == name && e.lower == LowerCase(name)
  {
    FileEntry(name, LowerCase(name))
  }

  /** Every entry's lower-case name is the lower-casing of its name. */
  ghost predicate WellFormed(files: seq<FileEntry>)
  {
    forall i :: 0 <= i < |files| ==> files[i].lower == LowerCase(files[i].name)
  }

  /** The entries recorded for a directory listing, in listing order. */
  function Entries(names: seq<string>): (es: seq<FileEntry>)
    ensures |es| == |names|
    ensures forall i :: 0 <= i < |names| ==> es[i] == Entry(names[i])
  {
    if names == [] then [] else Entries(names[..|names| - 1]) + [Entry(names[|names| - 1])]
  }

  /** Every recorded listing is well formed. */
  lemma {:induction false} EntriesWellFormed(names: seq<string>)
    ensures WellFormed(Entries(names))
  {
    var es := Entries(names);
    forall i | 0 <= i < |es|
      ensures es[i].lower == LowerCase(es[i].name)
    {
      assert es[i] == Entry(names[i]);
    }
  }

  /** The path of a file in a directory. */
  function FullPath(dir: string, name: string): string
  {
    dir + "/" + name
  }

  // ---------------------------------------------------------------------
  // Case-insensitive lookup of an existing translation file
  // ---------------------------------------------------------------------

  /** `get_outdir_file`: the name as read of the first entry whose lower-case
      name is `file`, or "" when there is none. */
  function OutdirFile(files: seq<FileEntry>, file: string): string
  {
    if files == [] then ""
    else if files[0].lower == file then files[0].name
    else OutdirFile(files[1..], file)
  }

  /** When entry `j` is the first whose lower-case name is `file`, the lookup
      returns entry `j`'s name as read. */
  lemma {:induction false} OutdirFileFirst(files: seq<FileEntry>, file: string, j: nat)
    requires j < |files| && files[j].lower == file
    requires forall k :: 0 <= k < j ==> files[k].lower != file
    ensures OutdirFile(files, file) == files[j].name
  {
    if j > 0 {
      assert files[0].lower != file;
      assert forall k :: 0 <= k < j - 1 ==> files[1..][k] == files[k + 1];
      OutdirFileFirst(files[1..], file, j - 1);
    }
  }

  /** When no entry has the lower-case name `file`, the lookup returns "". */
  lemma {:induction false} OutdirFileNone(files: seq<FileEntry>, file: string)
    requires forall i :: 0 <= i < |files| ==> files[i].lower != file
    ensures OutdirFile(files, file) == ""
  {
    if files != [] {
      assert forall i :: 0 <= i < |files| - 1 ==> files[1..][i] == files[i + 1];
      OutdirFileNone(files[1..], file);
    }
  }

  /** The lower-cased name under which a translation unit's `.po` file is
      looked up. */
  function PoKey(poname: string): (key: string)
    ensures EndsWith(key, PO_EXT) && |key| == |poname| + 3
  {
    LowerCase(poname + PO_EXT)
  }

  /** Looking up `PoKey(poname)` in a listing finds `poname.po` whatever the
      case of its letters: the first entry whose name lower-cases like it. */
  lemma PoLookupCaseInsensitive(files: seq<FileEntry>, poname: string, i: nat)
    requires WellFormed(files)
    requires i < |files| && LowerCase(files[i].name) == LowerCase(poname + PO_EXT)
    requires forall k :: 0 <= k < i ==> LowerCase(files[k].name) != LowerCase(poname + PO_EXT)
    ensures OutdirFile(files, PoKey(poname)) == files[i].name
  {
    OutdirFileFirst(files, PoKey(poname), i);
  }

  // ---------------------------------------------------------------------
  // Classification of game files
  // ---------------------------------------------------------------------

  /** Which extractor a game file goes to. */
  datatype Kind = Database | MapTree | Map | Ignored

  /** The dispatch in `main`, on the lower-case name. */
  function Classify(lname: string): Kind
  {
    if lname == DATABASE_FILE then Database
    else if lname == MAPTREE_FILE then MapTree
    else if EndsWith(lname, MAP_EXT) then Map
    else Ignored
  }

  /** Each kind is chosen by exactly its own test; the database and map-tree
      names do not end in ".lmu", so the order of the tests decides nothing. */
  lemma ClassifyExact(lname: string)
    ensures Classify(lname) == Database <==> lname == DATABASE_FILE
    ensures Classify(lname) == MapTree <==> lname == MAPTREE_FILE
    ensures Classify(lname) == Map <==> EndsWith(lname, MAP_EXT)
    ensures Classify(lname) == Ignored <==>
              lname != DATABASE_FILE && lname != MAPTREE_FILE && !EndsWith(lname, MAP_EXT)
  {
    assert !EndsWith(DATABASE_FILE, MAP_EXT) by {
      assert DATABASE_FILE[6..] != MAP_EXT by { assert DATABASE_FILE[6..][1] == 'l' && MAP_EXT[1] == 'l'; assert DATABASE_FILE[6..][2] != MAP_EXT[2]; }
    }
    assert !EndsWith(MAPTREE_FILE, MAP_EXT) by {
      assert MAPTREE_FILE[6..][3] != MAP_EXT[3];
    }
  }

  /** A call of one of the extractors on a game file. */
  datatype Job = DumpLdb(path: string) | DumpLmt(path: string) | DumpLmu(path: string)

  /** The extractor call for one entry, if any: at most one per file. */
  function JobFor(indir: string, f: FileEntry): (js: seq<Job>)
    ensures |js| <= 1
    ensures js == [] <==> Classify(f.lower) == Ignored
  {
    match Classify(f.lower)
    case Database => [DumpLdb(FullPath(indir, f.name))]
    case MapTree => [DumpLmt(FullPath(indir, f.name))]
    case Map => [DumpLmu(FullPath(indir, f.name))]
    case Ignored => []
  }

  /** The extractor calls for a list of entries, in list order. */
  function Jobs(indir: string, files: seq<FileEntry>): (js: seq<Job>)
    ensures |js| <= |files|
  {
    if files == [] then []
    else Jobs(indir, files[..|files| - 1]) + JobFor(indir, files[|files| - 1])
  }

  /** The extractor calls of a list are those of its parts, in order. */
  lemma {:induction false} JobsAppend(indir: string, a: seq<FileEntry>, b: seq<FileEntry>)
    ensures Jobs(indir, a + b) == Jobs(indir, a) + Jobs(indir, b)
  {
    if b != [] {
      assert (a + b)[..|a + b| - 1] == a + b[..|b| - 1];
      JobsAppend(indir, a, b[..|b| - 1]);
    } else {
      assert a + b == a;
    }
  }

  /** Every extractor call is for a file of the list, of the kind its
      lower-case name selects. */
  lemma {:induction false} JobsSound(indir: string, files: seq<FileEntry>, j: Job)
    requires j in Jobs(indir, files)
    ensures exists f :: f in files && JobFor(indir, f) == [j]
  {
    var n := |files| - 1;
    if j in Jobs(indir, files[..n]) {
      JobsSound(indir, files[..n], j);
      var f :| f in files[..n] && JobFor(indir, f) == [j];
      assert f in files;
    } else {
      assert JobFor(indir, files[n]) == [j];
    }
  }

  // ---------------------------------------------------------------------
  // Sorting the source files by name
  // ---------------------------------------------------------------------

  /** Ascending by name as read, as `std::sort` with `a.first < b.first`
      leaves a list. */
  predicate SortedByName(s: seq<FileEntry>)
  {
    forall i, j :: 0 <= i < j < |s| ==> !Less(s[j].name, s[i].name)
  }

  /** No entry of `s` sorts below `x`. */
  predicate NoneBelow(s: seq<FileEntry>, x: FileEntry)
  {
    forall e :: e in s ==> !Less(e.name, x.name)
  }

  function Insert(x: FileEntry, s: seq<FileEntry>): (r: seq<FileEntry>)
    ensures multiset(r) == multiset(s) + multiset{x}
  {
    if s == [] then [x]
    else if !Less(s[0].name, x.name) then [x] + s
    else
      assert s == [s[0]] + s[1..];
      [s[0]] + Insert(x, s[1..])
  }

  /** Sorts a list of entries by name (insertion sort). */
  function SortByName(s: seq<FileEntry>): (r: seq<FileEntry>)
    ensures multiset(r) == multiset(s)
  {
    if s == [] then []
    else
      assert s == [s[0]] + s[1..];
      Insert(s[0], SortByName(s[1..]))
  }

  lemma SortedCons(x: FileEntry, s: seq<FileEntry>)
    requires SortedByName(s) && NoneBelow(s, x)
    ensures SortedByName([x] + s)
  {
    var t := [x] + s;
    forall i, j | 0 <= i < j < |t| ensures !Less(t[j].name, t[i].name) {
      if i == 0 {
        assert t[j] in s;
      } else {
        assert t[i] == s[i - 1] && t[j] == s[j - 1];
      }
    }
  }

  lemma {:induction false} InsertSorted(x: FileEntry, s: seq<FileEntry>)
    requires SortedByName(s)
    ensures SortedByName(Insert(x, s))
  {
    if s == [] {
    } else if !Less(s[0].name, x.name) {
      forall e | e in s ensures !Less(e.name, x.name) {
        var k :| 0 <= k < |s| && s[k] == e;
        if k > 0 {
          NotLessTransitive(x.name, s[0].name, e.name);
        }
      }
      SortedCons(x, s);
    } else {
      var y, t := s[0], s[1..];
      assert SortedByName(t) by {
        forall i, j | 0 <= i < j < |t| ensures !Less(t[j].name, t[i].name) {
          assert t[i] == s[i + 1] && t[j] == s[j + 1];
        }
      }
      InsertSorted(x, t);
      forall e | e in Insert(x, t) ensures !Less(e.name, y.name) {
        assert e in multiset(Insert(x, t));
        if e == x {
          LessAsymmetric(y.name, x.name);
        } else {
          assert e in multiset(t);
          var k :| 0 <= k < |t| && t[k] == e;
          assert s[k + 1] == e;
        }
      }
      SortedCons(y, Insert(x, t));
    }
  }

  /** `SortByName` leaves the list ascending by name. */
  lemma {:induction false} SortByNameSorted(s: seq<FileEntry>)
    ensures SortedByName(SortByName(s))
  {
    if s != [] {
      SortByNameSorted(s[1..]);
      InsertSorted(s[0], SortByName(s[1..]));
    }
  }

  /** Sorting keeps every entry well formed, as it only reorders them. */
  lemma SortKeepsWellFormed(s: seq<FileEntry>)
    requires WellFormed(s)
    ensures WellFormed(SortByName(s))
  {
    var r := SortByName(s);
    forall i | 0 <= i < |r| ensures r[i].lower == LowerCase(r[i].name) {
      assert r[i] in multiset(r);
      assert r[i] in multiset(s);
      var k :| 0 <= k < |s| && s[k] == r[i];
    }
  }

  // ---------------------------------------------------------------------
  // Match mode: pairing translation files
  // ---------------------------------------------------------------------

  /** `ends_with_po`: the name has at least three characters and its
      lower-cased form ends in ".po". */
  function EndsWithPo(src: string): bool
  {
    if |src| >= |PO_EXT| then
      var l := LowerCase(src);
      l[|l| - |PO_EXT|..] == PO_EXT
    else false
  }

  /** The `.po` test, character by character: a dot, 'p' or 'P', 'o' or 'O'. */
  lemma EndsWithPoChars(s: string)
    ensures EndsWithPo(s) <==>
      && |s| >= 3
      && s[|s| - 3] == '.'
      && (s[|s| - 2] == 'p' || s[|s| - 2] == 'P')
      && (s[|s| - 1] == 'o' || s[|s| - 1] == 'O')
  {
    if |s| >= 3 {
      var l := LowerCase(s);
      var t := l[|l| - 3..];
      assert t == PO_EXT <==> t[0] == '.' && t[1] == 'p' && t[2] == 'o';
    }
  }

  /** The `.po` test does not depend on case, and on a lower-case name it is
      the plain suffix test. */
  lemma EndsWithPoCaseInsensitive(s: string)
    ensures EndsWithPo(LowerCase(s)) == EndsWithPo(s)
    ensures EndsWithPo(s) <==> EndsWith(LowerCase(s), PO_EXT)
  {
    LowerCaseIdempotent(s);
  }

  /** The pairs that `MatchMode` processes for one source file: every
      destination entry with the same lower-case name, in listing order. */
  function PairsFor(s: FileEntry, outs: seq<FileEntry>): (ps: seq<(FileEntry, FileEntry)>)
    ensures forall p :: p in ps <==> p.0 == s && p.1 in outs && s.lower == p.1.lower
  {
    if outs == [] then []
    else
      var o := outs[|outs| - 1];
      assert outs == outs[..|outs| - 1] + [o];
      PairsFor(s, outs[..|outs| - 1]) + (if s.lower == o.lower then [(s, o)] else [])
  }

  /** All pairs that `MatchMode` processes: source files in order, each that
      ends in ".po" with its destinations; other source files are skipped. */
  function MatchedPairs(sources: seq<FileEntry>, outs: seq<FileEntry>): (ps: seq<(FileEntry, FileEntry)>)
  {
    if sources == [] then []
    else
      var s := sources[|sources| - 1];
      MatchedPairs(sources[..|sources| - 1], outs) + (if EndsWithPo(s.name) then PairsFor(s, outs) else [])
  }

  /** A pair `(s, o)` is processed exactly when `s` is a source file ending in
      ".po" and `o` a destination with the same lower-case name. */
  lemma {:induction false} MatchedPairsExact(sources: seq<FileEntry>, outs: seq<FileEntry>, s: FileEntry, o: FileEntry)
    ensures (s, o) in MatchedPairs(sources, outs) <==>
              s in sources && o in outs && EndsWithPo(s.name) && s.lower == o.lower
  {
    if sources != [] {
      var n := |sources| - 1;
      MatchedPairsExact(sources[..n], outs, s, o);
      assert sources == sources[..n] + [sources[n]];
    }
  }

  /** `o.first.substr(0, o.first.size() - 3) + ".unmatched.po"`, with the
      unsigned subtraction and the clamping of `substr` written out. */
  function UnmatchedName(name: string): string
  {
    var count := (|name| - 3) % SIZE_RANGE;
    name[..if count < |name| then count else |name|] + UNMATCHED_SUFFIX
  }

  /** For a name ending in ".po", the unmatched-terms file is the name with
      its last three characters replaced by ".unmatched.po". */
  lemma UnmatchedNameOfPo(name: string)
    requires EndsWithPo(name) && |name| < SIZE_RANGE
    ensures UnmatchedName(name) == name[..|name| - 3] + UNMATCHED_SUFFIX
  {
    assert 0 <= |name| - 3 < SIZE_RANGE;
    assert (|name| - 3) % SIZE_RANGE == |name| - 3;
  }

  /** For every processed pair of well-formed listings the destination name
      itself ends in ".po", so `UnmatchedNameOfPo` applies to it. */
  lemma UnmatchedNameOfPair(sources: seq<FileEntry>, outs: seq<FileEntry>, s: FileEntry, o: FileEntry)
    requires WellFormed(sources) && WellFormed(outs)
    requires (s, o) in MatchedPairs(sources, outs)
    requires |o.name| < SIZE_RANGE
    ensures EndsWithPo(o.name) && |o.name| >= 3
    ensures UnmatchedName(o.name) == o.name[..|o.name| - 3] + UNMATCHED_SUFFIX
  {
    MatchedPairsExact(sources, outs, s, o);
    var i :| 0 <= i < |sources| && sources[i] == s;
    var j :| 0 <= j < |outs| && outs[j] == o;
    assert LowerCase(s.name) == LowerCase(o.name);
    EndsWithPoCaseInsensitive(s.name);
    EndsWithPoCaseInsensitive(o.name);
    assert EndsWithPo(o.name);
    UnmatchedNameOfPo(o.name);
  }

  /** The number of entries flagged fuzzy. */
  function FuzzyCount(flags: seq<bool>): (n: nat)
    ensures n <= |flags|
    ensures n == 0 <==> forall i :: 0 <= i < |flags| ==> !flags[i]
    ensures n == multiset(flags)[true]
  {
    if flags == [] then 0
    else
      var init, last := flags[..|flags| - 1], flags[|flags| - 1];
      assert flags == init + [last];
      FuzzyCount(init) + (if last then 1 else 0)
  }

  /** The count of fuzzy-matched entries, as `MatchMode` computes it. */
  method CountFuzzy(flags: seq<bool>) returns (fuzzy: nat)
    ensures fuzzy == FuzzyCount(flags)
  {
    fuzzy := 0;
    var k := 0;
    while k < |flags|
      invariant 0 <= k <= |flags|
      invariant fuzzy == FuzzyCount(flags[..k])
    {
      assert flags[..k + 1][..k] == flags[..k];
      if flags[k] {
        fuzzy := fuzzy + 1;
      }
      k := k + 1;
    }
    assert flags[..k] == flags;
  }

  // ---------------------------------------------------------------------
  // Encoding resolution
  // ---------------------------------------------------------------------

  /** The encoding lcftrans settles on. An explicit encoding is kept;
      otherwise the ini file is asked if one was found; if that leaves it
      empty and a database was found, the encoding is detected from the
      database when it loads.  `iniEncoding` stands for
      `ReaderUtil::GetEncoding`, `detect` for loading the database and
      `ReaderUtil::DetectEncoding` (None when the database does not load). */
  function ResolvedEncoding(explicit: string, iniFile: string, databaseFile: string,
                            iniEncoding: string -> string, detect: string -> Option<string>): string
  {
    if explicit != "" then explicit
    else
      var fromIni := if iniFile != "" then iniEncoding(iniFile) else "";
      if fromIni == "" && databaseFile != "" && detect(databaseFile).Some? then detect(databaseFile).value
      else fromIni
  }

  /** The fallback order: each source is used only when the ones before it
      gave nothing, and the result is the first that gave something (or what
      the database detection returned, or "" when nothing applies). */
  lemma EncodingOrder(explicit: string, iniFile: string, databaseFile: string,
                      iniEncoding: string -> string, detect: string -> Option<string>)
    ensures var enc := ResolvedEncoding(explicit, iniFile, databaseFile, iniEncoding, detect);
      && (explicit != "" ==> enc == explicit)
      && (explicit == "" && iniFile != "" && iniEncoding(iniFile) != "" ==> enc == iniEncoding(iniFile))
      && ((explicit == "" && (iniFile == "" || iniEncoding(iniFile) == "") && databaseFile != "" && detect(databaseFile).Some?)
          ==> enc == detect(databaseFile).value)
      && ((explicit == "" && (iniFile == "" || iniEncoding(iniFile) == "") && (databaseFile == "" || detect(databaseFile).None?))
          ==> enc == "")
  {
  }

  /** A source later in the order is never consulted when an earlier one gave
      an encoding: the result does not depend on it. */
  lemma EncodingOracleUnused(explicit: string, iniFile: string, databaseFile: string,
                             iniEncoding: string -> string, detect: string -> Option<string>,
                             iniEncoding': string -> string, detect': string -> Option<string>)
    ensures explicit != "" ==>
      ResolvedEncoding(explicit, iniFile, databaseFile, iniEncoding, detect)
      == ResolvedEncoding(explicit, iniFile, databaseFile, iniEncoding', detect')
    ensures explicit == "" && iniFile != "" && iniEncoding(iniFile) != "" ==>
      ResolvedEncoding(explicit, iniFile, databaseFile, iniEncoding, detect)
      == ResolvedEncoding(explicit, iniFile, databaseFile, iniEncoding, detect')
    ensures iniFile == "" ==>
      ResolvedEncoding(explicit, iniFile, databaseFile, iniEncoding, detect)
      == ResolvedEncoding(explicit, iniFile, databaseFile, iniEncoding', detect)
  {
  }

  /** The last game file of the listing whose lower-case name is `target`,
      as a path, or `init` when there is none. */
  function LastPath(indir: string, names: seq<string>, target: string, init: string): string
  {
    if names == [] then init
    else if LowerCase(names[|names| - 1]) == target then FullPath(indir, names[|names| - 1])
    else LastPath(indir, names[..|names| - 1], target, init)
  }

  /** When name `i` is the last whose lower-case form is `target`, `LastPath`
      is its path. */
  lemma {:induction false} LastPathLast(indir: string, names: seq<string>, target: string, init: string, i: nat)
    requires i < |names| && LowerCase(names[i]) == target
    requires forall k :: i < k < |names| ==> LowerCase(names[k]) != target
    ensures LastPath(indir, names, target, init) == FullPath(indir, names[i])
  {
    var n := |names| - 1;
    if i < n {
      assert forall k :: i < k < n ==> names[..n][k] == names[k];
      LastPathLast(indir, names[..n], target, init, i);
    }
  }

  /** When no name's lower-case form is `target`, `LastPath` is `init`. */
  lemma {:induction false} LastPathNone(indir: string, names: seq<string>, target: string, init: string)
    requires forall k :: 0 <= k < |names| ==> LowerCase(names[k]) != target
    ensures LastPath(indir, names, target, init) == init
  {
    if names != [] {
      var n := |names| - 1;
      assert forall k :: 0 <= k < n ==> names[..n][k] == names[k];
      LastPathNone(indir, names[..n], target, init);
    }
  }

  // ---------------------------------------------------------------------
  // Counts in the progress messages
  // ---------------------------------------------------------------------

  /** " term is " / " terms are " for stale, fuzzy and unmatched counts. */
  function TermIsAre(n: nat): string
  {
    if n == 1 then " term is " else " terms are "
  }

  /** "term " / "terms " in the database summary. */
  function TermWord(n: nat): string
  {
    if n == 1 then "term " else "terms "
  }

  /** The "s" after " term" in the per-map count. */
  function MapCountSuffix(n: nat): string
  {
    if n == 1 then "" else "s"
  }

  /** The "s" after " term" in the matched count, written with `!= 1`. */
  function MatchedSuffix(matched: int): string
  {
    if matched != 1 then "s" else ""
  }

  /** All four messages use the singular exactly for a count of one, so the
      `== 1` and `!= 1` forms agree. */
  lemma PluralAgreement(n: nat)
    ensures TermIsAre(n) == " term is " <==> n == 1
    ensures TermWord(n) == "term " <==> n == 1
    ensures MapCountSuffix(n) == "" <==> n == 1
    ensures MatchedSuffix(n) == MapCountSuffix(n)
  {
  }

  // ---------------------------------------------------------------------
  // The tool's state
  // ---------------------------------------------------------------------

  /** The configuration `main` fills in: the encoding, the ini and database
      files found, the listing of the game (or merge) directory and that of
      the output (or game) directory. */
  class Session {
    var encoding: string
    var iniFile: string
    var databaseFile: string
    var sourceFiles: seq<FileEntry>
    var outdirFiles: seq<FileEntry>

    ghost predicate Valid()
      reads this
    {
      WellFormed(sourceFiles) && WellFormed(outdirFiles)
    }

    /** The state after argument parsing: the encoding given on the command
      line ("" when none was), nothing found yet. */
    constructor (encoding: string)
      ensures Valid()
      ensures this.encoding == encoding && iniFile == "" && databaseFile == ""
      ensures sourceFiles == [] && outdirFiles == []
    {
      this.encoding := encoding;
      iniFile, databaseFile := "", "";
      sourceFiles, outdirFiles := [], [];
    }

    /** Records a listing of the output directory (update mode) or of the game
        directory (match mode). */
    method ReadOutdir(names: seq<string>)
      requires Valid()
      modifies this`outdirFiles
      ensures Valid()
      ensures outdirFiles == old(outdirFiles) + Entries(names)
    {
      var k := 0;
      while k < |names|
        invariant 0 <= k <= |names|
        invariant Valid()
        invariant outdirFiles == old(outdirFiles) + Entries(names[..k])
      {
        assert names[..k + 1][..k] == names[..k];
        outdirFiles := outdirFiles + [Entry(names[k])];
        k := k + 1;
      }
      assert names[..k] == names;
    }

    /** Records the listing of the merge directory in match mode. */
    method ReadMergeDir(names: seq<string>)
      requires Valid()
      modifies this`sourceFiles
      ensures Valid()
      ensures sourceFiles == old(sourceFiles) + Entries(names)
    {
      var k := 0;
      while k < |names|
        invariant 0 <= k <= |names|
        invariant Valid()
        invariant sourceFiles == old(sourceFiles) + Entries(names[..k])
      {
        assert names[..k + 1][..k] == names[..k];
        sourceFiles := sourceFiles + [Entry(names[k])];
        k := k + 1;
      }
      assert names[..k] == names;
    }

    /** Records the listing of the game directory, noting the paths of the
        ini file and the database among them. */
    method ScanInput(indir: string, names: seq<string>)
      requires Valid()
      modifies this`sourceFiles, this`iniFile, this`databaseFile
      ensures Valid()
      ensures sourceFiles == old(sourceFiles) + Entries(names)
      ensures iniFile == LastPath(indir, names, INI_FILE, old(iniFile))
      ensures databaseFile == LastPath(indir, names, DATABASE_FILE, old(databaseFile))
    {
      var k := 0;
      while k < |names|
        invariant 0 <= k <= |names|
        invariant Valid()
        invariant sourceFiles == old(sourceFiles) + Entries(names[..k])
        invariant iniFile == LastPath(indir, names[..k], INI_FILE, old(iniFile))
        invariant databaseFile == LastPath(indir, names[..k], DATABASE_FILE, old(databaseFile))
      {
        assert names[..k + 1][..k] == names[..k];
        var lname := LowerCase(names[k]);
        sourceFiles := sourceFiles + [FileEntry(names[k], lname)];
        if lname == INI_FILE {
          iniFile := FullPath(indir, names[k]);
        } else if lname == DATABASE_FILE {
          databaseFile := FullPath(indir, names[k]);
        }
        k := k + 1;
      }
      assert names[..k] == names;
    }

    /** Resolves the encoding and checks it with the encoder (`isOk` stands
        for `lcf::Encoder::IsOk`); 3 when the encoder rejects it, 0 when the
        run goes on. */
    method ResolveEncoding(iniEncoding: string -> string, detect: string -> Option<string>,
                           isOk: string -> bool) returns (exit: int)
      modifies this`encoding
      ensures encoding == ResolvedEncoding(old(encoding), iniFile, databaseFile, iniEncoding, detect)
      ensures exit == if isOk(encoding) then 0 else EXIT_BAD_ENCODING
    {
      if encoding == "" {
        if iniFile != "" {
          encoding := iniEncoding(iniFile);
        }
        if encoding == "" && databaseFile != "" {
          var db := detect(databaseFile);
          if db.Some? {
            encoding := db.value;
          }
        }
      }
      exit := if isOk(encoding) then 0 else EXIT_BAD_ENCODING;
    }

    /** `std::sort` of the source files by name. */
    method SortSourceFiles()
      requires Valid()
      modifies this`sourceFiles
      ensures Valid()
      ensures SortedByName(sourceFiles)
      ensures multiset(sourceFiles) == multiset(old(sourceFiles))
    {
      SortKeepsWellFormed(sourceFiles);
      SortByNameSorted(sourceFiles);
      sourceFiles := SortByName(sourceFiles);
    }

    /** The dispatch loop of `main`: the extractor calls for the source files,
        in order. */
    method Dispatch(indir: string) returns (jobs: seq<Job>)
      ensures jobs == Jobs(indir, sourceFiles)
    {
      jobs := [];
      var k := 0;
      while k < |sourceFiles|
        invariant 0 <= k <= |sourceFiles|
        invariant jobs == Jobs(indir, sourceFiles[..k])
      {
        assert sourceFiles[..k + 1][..k] == sourceFiles[..k];
        var s := sourceFiles[k];
        if s.lower == DATABASE_FILE {
          jobs := jobs + [DumpLdb(FullPath(indir, s.name))];
        } else if s.lower == MAPTREE_FILE {
          jobs := jobs + [DumpLmt(FullPath(indir, s.name))];
        } else if EndsWith(s.lower, MAP_EXT) {
          jobs := jobs + [DumpLmu(FullPath(indir, s.name))];
        }
        k := k + 1;
      }
      assert sourceFiles[..k] == sourceFiles;
    }

    /** The pairing loops of `MatchMode`: the (source, destination) pairs it
        matches, in the order it matches them. */
    method PairFiles() returns (pairs: seq<(FileEntry, FileEntry)>)
      ensures pairs == MatchedPairs(sourceFiles, outdirFiles)
    {
      pairs := [];
      var k := 0;
      while k < |sourceFiles|
        invariant 0 <= k <= |sourceFiles|
        invariant pairs == MatchedPairs(sourceFiles[..k], outdirFiles)
      {
        assert sourceFiles[..k + 1][..k] == sourceFiles[..k];
        var s := sourceFiles[k];
        if EndsWithPo(s.name) {
          var m := 0;
          while m < |outdirFiles|
            invariant 0 <= m <= |outdirFiles|
            invariant pairs == MatchedPairs(sourceFiles[..k], outdirFiles) + PairsFor(s, outdirFiles[..m])
          {
            assert outdirFiles[..m + 1][..m] == outdirFiles[..m];
            var o := outdirFiles[m];
            if s.lower == o.lower {
              pairs := pairs + [(s, o)];
            }
            m := m + 1;
          }
          assert outdirFiles[..m] == outdirFiles;
        }
        k := k + 1;
      }
      assert sourceFiles[..k] == sourceFiles;
    }

    /** `MatchMode`: sorts the source files, then pairs them; the exit code is 0. */
    method MatchMode() returns (exit: int, pairs: seq<(FileEntry, FileEntry)>)
      requires Valid()
      modifies this`sourceFiles
      ensures Valid()
      ensures SortedByName(sourceFiles) && multiset(sourceFiles) == multiset(old(sourceFiles))
      ensures pairs == MatchedPairs(sourceFiles, outdirFiles)
      ensures exit == 0
    {
      SortSourceFiles();
      pairs := PairFiles();
      exit := 0;
    }

    /** The end of `main` in create and update mode: resolve the encoding,
        stop with 3 if the encoder rejects it, otherwise sort the source files
        and dispatch them. */
    method Extract(indir: string, iniEncoding: string -> string, detect: string -> Option<string>,
                   isOk: string -> bool) returns (exit: int, jobs: seq<Job>)
      requires Valid()
      modifies this`encoding, this`sourceFiles
      ensures Valid()
      ensures encoding == ResolvedEncoding(old(encoding), iniFile, databaseFile, iniEncoding, detect)
      ensures !isOk(encoding) ==> exit == EXIT_BAD_ENCODING && jobs == [] && sourceFiles == old(sourceFiles)
      ensures isOk(encoding) ==>
        && exit == 0
        && SortedByName(sourceFiles) && multiset(sourceFiles) == multiset(old(sourceFiles))
        && jobs == Jobs(indir, sourceFiles)
    {
      exit := ResolveEncoding(iniEncoding, detect, isOk);
      if exit != 0 {
        return exit, [];
      }
      SortSourceFiles();
      jobs := Dispatch(indir);
    }
  }
}
