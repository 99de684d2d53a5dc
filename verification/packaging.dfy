/** The file-selection rule of the packaging script
    (build_optimized.py:4-39): which files of an extension directory enter
    the archive, in which order, and under which name. The directory is a
    tree of entries; `os.walk` is modelled as its top-down traversal (a
    directory's files, then its sub-directories, in listing order). */
module Packaging {

  /** A directory entry: a file, or a directory with its listing. */
  datatype Entry = File(name: string) | Dir(name: string, entries: seq<Entry>)

  /** A path relative to the source directory, one name per component. */
  type Path = seq<string>

  function AllowedFiles(): set<string>
  {
    {"manifest.json", "content.js", "popup.js", "popup.html", "LICENSE"}
  }

  function AllowedFolders(): set<string>
  {
    {"icons", "fonts"}
  }

  function ExcludeExtensions(): seq<string>
  {
    [".ttf", ".py", ".md", ".png_backup"]
  }

  /** `s.endswith(suffix)`: case-sensitive. */
  predicate EndsWith(s: string, suffix: string)
  {
    |suffix| <= |s| && s[|s| - |suffix|..] == suffix
  }

  /** `any(f.endswith(ext) for ext in EXCLUDE_EXTENSIONS)` */
  predicate Excluded(f: string)
  {
    exists k :: 0 <= k < |ExcludeExtensions()| && EndsWith(f, ExcludeExtensions()[k])
  }

  function Last(p: Path): string
    requires |p| > 0
  {
    p[|p| - 1]
  }

  /** Each path of `ps` with `name` put in front. */
  function Prepend(name: string, ps: seq<Path>): (r: seq<Path>)
    ensures |r| == |ps|
    ensures forall i :: 0 <= i < |ps| ==> r[i] == [name] + ps[i]
  {
    if ps == [] then [] else [[name] + ps[0]] + Prepend(name, ps[1..])
  }

  // ---------------------------------------------------------------------------
  // The walk
  // ---------------------------------------------------------------------------

  /** Inside an allowed folder: this directory's files that are not
      excluded, in listing order. */
  function KeptInner(entries: seq<Entry>): seq<Path>
  {
    if entries == [] then []
    else
      (if entries[0].File? && !Excluded(entries[0].name) then [[entries[0].name]] else [])
      + KeptInner(entries[1..])
  }

  /** Inside an allowed folder everything is archived that is not excluded:
      the files here, then every sub-directory walked in turn. */
  function WalkInner(entries: seq<Entry>): seq<Path>
    decreases entries, 1
  {
    KeptInner(entries) + DescendInner(entries)
  }

  function DescendInner(entries: seq<Entry>): seq<Path>
    decreases entries, 0
  {
    if entries == [] then []
    else
      (if entries[0].Dir? then Prepend(entries[0].name, WalkInner(entries[0].entries)) else [])
      + DescendInner(entries[1..])
  }

  /** At the root: the files named in `ALLOWED_FILES`. */
  function KeptRoot(entries: seq<Entry>): seq<Path>
  {
    if entries == [] then []
    else
      (if entries[0].File? && entries[0].name in AllowedFiles() then [[entries[0].name]] else [])
      + KeptRoot(entries[1..])
  }

  /** At the root only the folders named in `ALLOWED_FOLDERS` are descended. */
  function DescendRoot(entries: seq<Entry>): seq<Path>
  {
    if entries == [] then []
    else
      (if entries[0].Dir? && entries[0].name in AllowedFolders()
       then Prepend(entries[0].name, WalkInner(entries[0].entries)) else [])
      + DescendRoot(entries[1..])
  }

  /** The relative paths written to the archive, in the order they are written. */
  function Archive(root: seq<Entry>): seq<Path>
  {
    KeptRoot(root) + DescendRoot(root)
  }

  // ---------------------------------------------------------------------------
  // The reference: which paths name files, and which of them are wanted
  // ---------------------------------------------------------------------------

  /** `e` is, or contains, a file at path `p` (its first component naming `e`). */
  predicate EntryHas(e: Entry, p: Path)
    decreases e
  {
    && |p| > 0
    && e.name == p[0]
    && match e
       case File(_) => |p| == 1
       case Dir(_, es) => |p| > 1 && exists i :: 0 <= i < |es| && EntryHas(es[i], p[1..])
  }

  /** There is a file at path `p` below a directory with listing `entries`. */
  predicate IsFileAt(entries: seq<Entry>, p: Path)
  {
    exists i :: 0 <= i < |entries| && EntryHas(entries[i], p)
  }

  /** The selection rule: an allowed root file, or a file at any depth below
      an allowed top-level folder whose name does not end in an excluded
      extension. */
  predicate Selected(p: Path)
  {
    || (|p| == 1 && p[0] in AllowedFiles())
    || (|p| > 1 && p[0] in AllowedFolders() && !Excluded(Last(p)))
  }

  // ---------------------------------------------------------------------------
  // The walk archives exactly the selected files
  // ---------------------------------------------------------------------------

  lemma IsFileAtSplit(entries: seq<Entry>, p: Path)
    requires entries != []
    ensures IsFileAt(entries, p) <==> EntryHas(entries[0], p) || IsFileAt(entries[1..], p)
  {
    if IsFileAt(entries, p) && !EntryHas(entries[0], p) {
      var i :| 0 <= i < |entries| && EntryHas(entries[i], p);
      assert entries[1..][i - 1] == entries[i];
    }
    if IsFileAt(entries[1..], p) {
      var i :| 0 <= i < |entries[1..]| && EntryHas(entries[1..][i], p);
      assert entries[i + 1] == entries[1..][i];
    }
  }

  lemma PrependMember(name: string, ps: seq<Path>, p: Path)
    ensures p in Prepend(name, ps) <==> |p| > 0 && p[0] == name && p[1..] in ps
  {
    if |p| > 0 && p[0] == name && p[1..] in ps {
      var i :| 0 <= i < |ps| && ps[i] == p[1..];
      assert Prepend(name, ps)[i] == p;
    }
  }

  /** For a one-component path, an entry holds it exactly when it is a file
      of that name. */
  lemma OneComponent(e: Entry, p: Path)
    requires |p| == 1
    ensures EntryHas(e, p) <==> e == File(p[0])
  {
  }

  lemma {:induction false} KeptInnerMembers(entries: seq<Entry>)
    ensures forall p :: p in KeptInner(entries) <==> |p| == 1 && !Excluded(p[0]) && IsFileAt(entries, p)
  {
    if entries != [] {
      var e := entries[0];
      var head: seq<Path> := if e.File? && !Excluded(e.name) then [[e.name]] else [];
      KeptInnerMembers(entries[1..]);
      assert KeptInner(entries) == head + KeptInner(entries[1..]);
      forall p
        ensures p in KeptInner(entries) <==> |p| == 1 && !Excluded(p[0]) && IsFileAt(entries, p)
      {
        IsFileAtSplit(entries, p);
        if |p| == 1 {
          OneComponent(e, p);
          assert p == [p[0]];
        }
      }
    }
  }

  lemma {:induction false} KeptRootMembers(entries: seq<Entry>)
    ensures forall p :: p in KeptRoot(entries) <==> |p| == 1 && p[0] in AllowedFiles() && IsFileAt(entries, p)
  {
    if entries != [] {
      var e := entries[0];
      var head: seq<Path> := if e.File? && e.name in AllowedFiles() then [[e.name]] else [];
      KeptRootMembers(entries[1..]);
      assert KeptRoot(entries) == head + KeptRoot(entries[1..]);
      forall p
        ensures p in KeptRoot(entries) <==> |p| == 1 && p[0] in AllowedFiles() && IsFileAt(entries, p)
      {
        IsFileAtSplit(entries, p);
        if |p| == 1 {
          OneComponent(e, p);
          assert p == [p[0]];
        }
      }
    }
  }

  /** Below an allowed folder, a path is archived exactly when a file is
      there and its name has no excluded extension. */
  lemma {:induction false} WalkInnerMembers(entries: seq<Entry>)
    ensures forall p :: p in WalkInner(entries) <==> IsFileAt(entries, p) && !Excluded(Last(p))
    decreases entries, 1
  {
    KeptInnerMembers(entries);
    DescendInnerMembers(entries);
    forall p | IsFileAt(entries, p)
      ensures |p| > 0
    {
      var i :| 0 <= i < |entries| && EntryHas(entries[i], p);
    }
  }

  /** A directory entry `e` found at `p`: its name is `p[0]`, and for a
      directory the rest of `p` lies below it. */
  lemma DirHas(e: Entry, p: Path)
    requires e.Dir?
    ensures EntryHas(e, p) <==> |p| > 1 && p[0] == e.name && IsFileAt(e.entries, p[1..])
  {
  }

  /** The paths a descended directory contributes are exactly the files
      below it without an excluded extension. */
  lemma {:induction false} DirMembers(e: Entry, p: Path)
    requires e.Dir?
    ensures p in Prepend(e.name, WalkInner(e.entries)) <==> |p| > 1 && !Excluded(Last(p)) && EntryHas(e, p)
    decreases e, 2
  {
    PrependMember(e.name, WalkInner(e.entries), p);
    DirHas(e, p);
    WalkInnerMembers(e.entries);
    if |p| > 1 {
      assert p[1..] in WalkInner(e.entries) <==> IsFileAt(e.entries, p[1..]) && !Excluded(Last(p[1..]));
      assert Last(p[1..]) == Last(p);
    }
  }

  lemma {:induction false} DescendInnerMembers(entries: seq<Entry>)
    ensures forall p :: p in DescendInner(entries) <==> |p| > 1 && !Excluded(Last(p)) && IsFileAt(entries, p)
    decreases entries, 0
  {
    if entries != [] {
      var e := entries[0];
      DescendInnerMembers(entries[1..]);
      forall p
        ensures p in DescendInner(entries) <==> |p| > 1 && !Excluded(Last(p)) && IsFileAt(entries, p)
      {
        IsFileAtSplit(entries, p);
        if e.Dir? {
          DirMembers(e, p);
        }
      }
    }
  }

  lemma {:induction false} DescendRootMembers(entries: seq<Entry>)
    ensures forall p :: p in DescendRoot(entries) <==>
      |p| > 1 && p[0] in AllowedFolders() && !Excluded(Last(p)) && IsFileAt(entries, p)
  {
    if entries != [] {
      var e := entries[0];
      DescendRootMembers(entries[1..]);
      forall p
        ensures p in DescendRoot(entries) <==>
          |p| > 1 && p[0] in AllowedFolders() && !Excluded(Last(p)) && IsFileAt(entries, p)
      {
        IsFileAtSplit(entries, p);
        if e.Dir? {
          DirMembers(e, p);
        }
      }
    }
  }

  /** A relative path is archived exactly when a file is there and the
      selection rule accepts it; directories outside `icons` and `fonts` are
      never entered, while everything below those two is. */
  lemma ArchiveMembers(root: seq<Entry>)
    ensures forall p :: p in Archive(root) <==> IsFileAt(root, p) && Selected(p)
  {
    KeptRootMembers(root);
    DescendRootMembers(root);
  }

  /** A name with a suffix ends in the suffix's last character. */
  lemma EndsWithLast(f: string, x: string)
    requires |x| > 0 && EndsWith(f, x)
    ensures f[|f| - 1] == x[|x| - 1]
  {
    assert f[|f| - |x|..][|x| - 1] == f[|f| - 1];
  }

  /** None of the allowed root names ends in an excluded extension: their
      last characters differ. */
  lemma AllowedFilesNotExcluded()
    ensures forall f :: f in AllowedFiles() ==> !Excluded(f)
  {
    forall f, k | f in AllowedFiles() && 0 <= k < |ExcludeExtensions()|
      ensures !EndsWith(f, ExcludeExtensions()[k])
    {
      var x := ExcludeExtensions()[k];
      assert x[|x| - 1] in {'f', 'y', 'd', 'p'};
      assert f[|f| - 1] in {'n', 's', 'l', 'E'};
      if EndsWith(f, x) {
        EndsWithLast(f, x);
      }
    }
  }

  /** No archived entry, at the root or below, ends in an excluded extension. */
  lemma NothingExcludedArchived(root: seq<Entry>)
    ensures forall p :: p in Archive(root) ==> |p| > 0 && !Excluded(Last(p))
  {
    ArchiveMembers(root);
    AllowedFilesNotExcluded();
  }

  // ---------------------------------------------------------------------------
  // Archive names
  // ---------------------------------------------------------------------------

  /** `os.path.join` of the components with separator `sep`. */
  function Join(p: Path, sep: char): string
  {
    if p == [] then "" else if |p| == 1 then p[0] else p[0] + [sep] + Join(p[1..], sep)
  }

  /** `s.replace(from, to)` for single characters. */
  function ReplaceChar(s: string, from: char, to: char): (r: string)
    ensures |r| == |s|
    ensures forall i :: 0 <= i < |s| ==> r[i] == (if s[i] == from then to else s[i])
  {
    if s == [] then [] else [if s[0] == from then to else s[0]] + ReplaceChar(s[1..], from, to)
  }

  /** The arcname: the relative path joined with the platform separator, the
      separator then replaced by `/`. */
  function ArcName(p: Path, sep: char): string
  {
    ReplaceChar(Join(p, sep), sep, '/')
  }

  /** No component holds the separator or `/` (true of every path a file
      system lists). */
  predicate PlainNames(p: Path, sep: char)
  {
    forall i :: 0 <= i < |p| ==> sep !in p[i] && '/' !in p[i]
  }

  lemma {:induction false} JoinMembers(p: Path, sep: char, c: char)
    requires forall i :: 0 <= i < |p| ==> c !in p[i]
    ensures c in Join(p, sep) ==> c == sep
  {
    if |p| > 1 {
      JoinMembers(p[1..], sep, c);
      assert p[0] + [sep] + Join(p[1..], sep) == Join(p, sep);
    }
  }

  /** Whatever the platform separator, the archive name is the components
      joined with `/`. */
  lemma {:induction false} ArcNameIsSlashJoin(p: Path, sep: char)
    requires PlainNames(p, sep)
    ensures ArcName(p, sep) == Join(p, '/')
  {
    if |p| == 1 {
      assert ReplaceChar(p[0], sep, '/') == p[0];
    } else if |p| > 1 {
      ArcNameIsSlashJoin(p[1..], sep);
      var a := p[0] + [sep] + Join(p[1..], sep);
      var b := p[0] + ['/'] + Join(p[1..], '/');
      assert |a| == |b|;
      forall i | 0 <= i < |a|
        ensures ReplaceChar(a, sep, '/')[i] == b[i]
      {
        if i > |p[0]| {
          assert a[i] == Join(p[1..], sep)[i - |p[0]| - 1];
          assert b[i] == Join(p[1..], '/')[i - |p[0]| - 1];
          assert ArcName(p[1..], sep)[i - |p[0]| - 1] == b[i];
        }
      }
    }
  }

  /** The first index of `c` in `s`, or `|s|`. */
  function IndexOf(s: string, c: char): (r: nat)
    ensures r <= |s|
    ensures forall i :: 0 <= i < r ==> s[i] != c
    ensures r < |s| ==> s[r] == c
  {
    if s == [] then 0 else if s[0] == c then 0 else 1 + IndexOf(s[1..], c)
  }

  /** `s.split('/')` */
  function Split(s: string, c: char): seq<string>
    decreases |s|
  {
    var k := IndexOf(s, c);
    if k == |s| then [s] else [s[..k]] + Split(s[k + 1..], c)
  }

  /** Splitting an archive name at `/` gives back the path's components, so
      distinct paths never share an archive name. */
  lemma {:induction false} SplitArcName(p: Path, sep: char)
    requires |p| > 0 && PlainNames(p, sep)
    ensures Split(ArcName(p, sep), '/') == p
  {
    ArcNameIsSlashJoin(p, sep);
    SplitJoin(p);
  }

  lemma {:induction false} SplitJoin(p: Path)
    requires |p| > 0
    requires forall i :: 0 <= i < |p| ==> '/' !in p[i]
    ensures Split(Join(p, '/'), '/') == p
  {
    var s := Join(p, '/');
    if |p| == 1 {
      assert IndexOf(s, '/') == |s|;
    } else {
      SplitJoin(p[1..]);
      var k := IndexOf(s, '/');
      assert s == p[0] + ['/'] + Join(p[1..], '/');
      assert s[|p[0]|] == '/';
      assert k == |p[0]|;
      assert s[..k] == p[0];
      assert s[k + 1..] == Join(p[1..], '/');
      assert p == [p[0]] + p[1..];
    }
  }

  /** Distinct paths get distinct archive names. */
  lemma ArcNameInjective(p: Path, q: Path, sep: char)
    requires |p| > 0 && |q| > 0 && PlainNames(p, sep) && PlainNames(q, sep)
    ensures ArcName(p, sep) == ArcName(q, sep) <==> p == q
  {
    SplitArcName(p, sep);
    SplitArcName(q, sep);
  }
}
