// The per-file step of the header tool (which files are rewritten, and how
// the header is added or removed), the entry-name extraction of the
// directory walk, and the walk itself, mirrored over an in-memory tree.

module Program {
  import opened Text
  import opened Cli

  /** The exceptions RunFile raises before it touches any content. */
  datatype Fault = SourceFileMissing(path: string) | DestinationFileExists(path: string)

  datatype Result<T> = Ok(value: T) | Err(fault: Fault)

  /** What RunFile reports: a verbatim copy, a header added, a header
      removed, the warning that the header was not found (the content is
      then written unchanged), or, when neither action flag is set, a
      silent rewrite of the content as read. */
  datatype Event = Copied | HeaderAdded | HeaderRemoved | HeaderNotFound | Rewritten

  datatype FileResult = FileResult(content: string, event: Event)

  /** A path is selected when it holds a '.' and its suffix from the last
      '.' on, dot included, is a registered extension. The whole path is
      inspected, directories included. */
  predicate IsSelected(path: string, exts: set<string>) {
    var idx := LastIndexOf(path, '.');
    idx != -1 && path[idx..] in exts
  }

  /** The header followed by the content. */
  function AddHeader(header: string, content: string): (r: string)
    ensures StartsWith(r, header) && r[|header|..] == content
  {
    header + content
  }

  /** The content without the header when it starts with the header, and
      the content unchanged otherwise. */
  function RemoveHeader(header: string, content: string): (r: string)
    ensures StartsWith(content, header) ==> header + r == content
    ensures !StartsWith(content, header) ==> r == content
  {
    if StartsWith(content, header) then content[|header|..] else content
  }

  /** RunFile. The source must exist and the destination must not; the
      existence tests and the source's text are parameters. What it writes
      is stated by the three lemmas below. */
  function RunFile(sfile: string, dfile: string, s: Settings,
                   sourceExists: bool, destExists: bool, content: string): (r: Result<FileResult>)
    ensures !sourceExists ==> r == Err(SourceFileMissing(sfile))
    ensures sourceExists && destExists ==> r == Err(DestinationFileExists(dfile))
    ensures sourceExists && !destExists ==> r.Ok?
  {
    if !sourceExists then Err(SourceFileMissing(sfile))
    else if destExists then Err(DestinationFileExists(dfile))
    else if !IsSelected(sfile, s.exts) then Ok(FileResult(content, Copied))
    else if s.isAdd then Ok(FileResult(AddHeader(s.header, content), HeaderAdded))
    else if s.isRemove then
      if StartsWith(content, s.header) then Ok(FileResult(RemoveHeader(s.header, content), HeaderRemoved))
      else Ok(FileResult(content, HeaderNotFound))
    else Ok(FileResult(content, Rewritten))
  }

  /** A path that is not selected is copied as it is, whatever the action. */
  lemma UnselectedIsCopied(sfile: string, dfile: string, s: Settings, content: string)
    requires !IsSelected(sfile, s.exts)
    ensures RunFile(sfile, dfile, s, true, false, content) == Ok(FileResult(content, Copied))
  {
  }

  /** With add, a selected file is written as the header followed by its
      content. */
  lemma AddPrependsHeader(sfile: string, dfile: string, s: Settings, content: string)
    requires IsSelected(sfile, s.exts) && s.isAdd
    ensures var r := RunFile(sfile, dfile, s, true, false, content).value;
      && r.event == HeaderAdded
      && StartsWith(r.content, s.header)
      && r.content[|s.header|..] == content
  {
  }

  /** With remove, a selected file loses the header exactly when it starts
      with it; any other content is written unchanged with a warning. When
      neither action flag is set the content is written back unchanged. */
  lemma RemoveStripsHeader(sfile: string, dfile: string, s: Settings, content: string)
    requires IsSelected(sfile, s.exts) && !s.isAdd
    ensures var r := RunFile(sfile, dfile, s, true, false, content).value;
      && (s.isRemove ==> (r.event == HeaderRemoved <==> StartsWith(content, s.header)))
      && (r.event == HeaderRemoved ==> s.header + r.content == content)
      && (r.event != HeaderRemoved ==> r.content == content)
      && (s.isRemove && r.event != HeaderRemoved ==> r.event == HeaderNotFound)
      && (!s.isRemove ==> r.event == Rewritten)
  {
    if s.isRemove && StartsWith(content, s.header) {
      AddAfterRemove(s.header, content);
    }
  }

  /** Removing the header undoes adding it, and strips exactly one copy. */
  lemma RemoveAfterAdd(header: string, content: string)
    ensures RemoveHeader(header, AddHeader(header, content)) == content
  {
    assert (header + content)[..|header|] == header;
  }

  /** Adding the header back to content that started with it restores the
      content: RemoveHeader's first postcondition, stated as the inverse
      law for the round trip. */
  lemma AddAfterRemove(header: string, content: string)
    requires StartsWith(content, header)
    ensures AddHeader(header, RemoveHeader(header, content)) == content
  {
    assert content == content[..|header|] + content[|header|..];
  }

  /** Content that does not start with the header passes remove unchanged:
      RemoveHeader's second postcondition, under the name the remove branch
      of RunFile uses for it. */
  lemma RemoveWithoutHeader(header: string, content: string)
    requires !StartsWith(content, header)
    ensures RemoveHeader(header, content) == content
  {
  }

  /** The selection test names the last '.' of the path: a path is
      selected iff it has a '.' with no '.' after it whose suffix is a
      registered extension. */
  lemma SelectedIff(path: string, exts: set<string>)
    ensures IsSelected(path, exts) <==>
              exists k :: 0 <= k < |path| && path[k] == '.' && '.' !in path[k + 1..] && path[k..] in exts
  {
    var idx := LastIndexOf(path, '.');
    if idx != -1 {
      assert '.' !in path[idx + 1..];
    }
    if k :| 0 <= k < |path| && path[k] == '.' && '.' !in path[k + 1..] && path[k..] in exts {
      forall j | k < j < |path| ensures path[j] != '.' {
        assert path[j] == path[k + 1..][j - k - 1];
      }
      LastIndexIsUnique(path, '.', idx, k);
    }
  }

  /** The first run writes add's output for one content, the second feeds
      it to remove: the content comes back, whether or not the path was
      selected, as long as both paths are selected alike. */
  lemma AddThenRemove(p1: string, d1: string, p2: string, d2: string,
                      add: Settings, remove: Settings, content: string)
    requires add.header == remove.header && add.exts == remove.exts
    requires add.isAdd && !remove.isAdd && remove.isRemove
    requires IsSelected(p1, add.exts) == IsSelected(p2, remove.exts)
    ensures var added := RunFile(p1, d1, add, true, false, content).value;
            var restored := RunFile(p2, d2, remove, true, false, added.content).value;
            && restored.content == content
            && restored.event == if IsSelected(p1, add.exts) then HeaderRemoved else Copied
  {
    RemoveAfterAdd(add.header, content);
    var added := RunFile(p1, d1, add, true, false, content).value;
    if IsSelected(p1, add.exts) {
      AddPrependsHeader(p1, d1, add, content);
      RemoveStripsHeader(p2, d2, remove, added.content);
    } else {
      UnselectedIsCopied(p1, d1, add, content);
      UnselectedIsCopied(p2, d2, remove, content);
    }
  }

  // ---- Entry names in RunDir ----

  const Separators: set<char> := {'/', '\\'}

  /** The entry name RunDir takes from a listed path: everything after the
      last '/' or '\', or the whole path when it has neither. It is the
      longest suffix of the path without a separator. */
  function BaseName(path: string): (name: string)
    ensures forall k :: 0 <= k < |name| ==> name[k] !in Separators
    ensures |name| <= |path| && name == path[|path| - |name|..]
    ensures |name| < |path| ==> path[|path| - |name| - 1] in Separators
  {
    var idx := LastIndexOfAny(path, Separators);
    if idx != -1 then path[idx + 1..] else path
  }

  /** The self and parent pseudo-entries, which RunDir never recurses into. */
  predicate IsPseudoEntry(name: string) {
    name == "." || name == ".."
  }

  /** An entry name as a directory listing holds it: not empty and free of
      separators. */
  predicate WellNamed(name: string) {
    name != [] && forall k :: 0 <= k < |name| ==> name[k] !in Separators
  }

  /** Path.Combine as .NET does it on Unix: an empty part yields the
      other, a rooted second part replaces the first, and a '/' is put
      between the two unless the first already ends with one. */
  function Combine(dir: string, name: string): string {
    if dir == [] then name
    else if name == [] then dir
    else if name[0] == '/' then name
    else if dir[|dir| - 1] == '/' then dir + name
    else dir + "/" + name
  }

  /** Combine puts an entry name after a prefix that is empty or ends in
      '/'. */
  lemma CombineSplit(dir: string, name: string) returns (prefix: string)
    requires WellNamed(name)
    ensures Combine(dir, name) == prefix + name
    ensures prefix == [] || prefix[|prefix| - 1] == '/'
  {
    assert name[0] !in Separators;
    if dir == [] {
      prefix := [];
    } else if dir[|dir| - 1] == '/' {
      prefix := dir;
    } else {
      prefix := dir + "/";
      assert dir + "/" + name == prefix + name;
    }
  }

  /** RunDir recovers the entry name from the path it lists. */
  lemma BaseNameOfCombine(dir: string, name: string)
    requires WellNamed(name)
    ensures BaseName(Combine(dir, name)) == name
  {
    var prefix := CombineSplit(dir, name);
    var path := prefix + name;
    assert path[|path| - |name|..] == name;
  }

  /** When no extension holds a '/', a listed entry is selected exactly
      when its own name is: the last '.' of the path can lie in a directory
      name only if the name has no '.', and then the suffix holds a '/'. */
  lemma {:induction false} SelectedUnderDirectory(dir: string, name: string, exts: set<string>)
    requires WellNamed(name)
    requires forall e :: e in exts ==> '/' !in e
    ensures IsSelected(Combine(dir, name), exts) == IsSelected(name, exts)
  {
    var prefix := CombineSplit(dir, name);
    var path := prefix + name;
    LastIndexOfAppend(prefix, name, '.');
    if '.' in name {
      var j := LastIndexOf(name, '.');
      assert path[|prefix| + j..] == name[j..];
    } else {
      var idx := LastIndexOf(prefix, '.');
      if idx != -1 {
        var suffix := path[idx..];
        assert suffix[|prefix| - 1 - idx] == '/';
        assert suffix !in exts;
      }
    }
  }

  // ---- The walk, over an in-memory tree ----

  datatype File = File(name: string, content: string)

  /** A directory: its files, then its subdirectories, in listing order. */
  datatype Dir = Dir(files: seq<File>, subdirs: seq<SubDir>)

  datatype SubDir = SubDir(name: string, dir: Dir)

  /** Every entry name of the tree is well named. */
  predicate WellFormed(d: Dir)
    decreases d
  {
    && (forall f :: f in d.files ==> WellNamed(f.name))
    && (forall sd :: sd in d.subdirs ==> WellNamed(sd.name) && WellFormed(sd.dir))
  }

  /** No subdirectory of the tree is a self or parent pseudo-entry. */
  predicate NoPseudo(d: Dir)
    decreases d
  {
    forall sd :: sd in d.subdirs ==> !IsPseudoEntry(sd.name) && NoPseudo(sd.dir)
  }

  /** The tree with every file emptied: its names and its shape. */
  function Skeleton(d: Dir): Dir
    decreases d
  {
    Dir(SkeletonFiles(d.files), SkeletonSubdirs(d.subdirs))
  }

  function SkeletonFiles(files: seq<File>): seq<File> {
    if files == [] then [] else [File(files[0].name, "")] + SkeletonFiles(files[1..])
  }

  function SkeletonSubdirs(subdirs: seq<SubDir>): seq<SubDir>
    decreases subdirs
  {
    if subdirs == [] then []
    else [SubDir(subdirs[0].name, Skeleton(subdirs[0].dir))] + SkeletonSubdirs(subdirs[1..])
  }

  /** RunFile on one listed file of sdir, writing into ddir. The listing
      is taken to be current and the destination fresh. */
  function MirrorFile(sdir: string, ddir: string, f: File, s: Settings): (r: File)
    requires WellNamed(f.name)
    ensures r.name == f.name
  {
    BaseNameOfCombine(sdir, f.name);
    var name := BaseName(Combine(sdir, f.name));
    var out := RunFile(Combine(sdir, name), Combine(ddir, name), s, true, false, f.content);
    File(name, out.value.content)
  }

  function MirrorFiles(sdir: string, ddir: string, files: seq<File>, s: Settings): (r: seq<File>)
    requires forall f :: f in files ==> WellNamed(f.name)
    ensures |r| == |files|
    ensures forall f :: f in r ==> WellNamed(f.name)
  {
    if files == [] then []
    else [MirrorFile(sdir, ddir, files[0], s)] + MirrorFiles(sdir, ddir, files[1..], s)
  }

  /** RunDir on the tree d listed at sdir, writing into ddir: the files
      first, then every subdirectory that is not a pseudo-entry. The
      result is the tree written under ddir. */
  function MirrorDir(sdir: string, ddir: string, d: Dir, s: Settings): (r: Dir)
    requires WellFormed(d)
    ensures WellFormed(r) && NoPseudo(r)
    decreases d
  {
    Dir(MirrorFiles(sdir, ddir, d.files, s), MirrorSubdirs(sdir, ddir, d.subdirs, s))
  }

  function MirrorSubdirs(sdir: string, ddir: string, subdirs: seq<SubDir>, s: Settings): (r: seq<SubDir>)
    requires forall sd :: sd in subdirs ==> WellNamed(sd.name) && WellFormed(sd.dir)
    ensures forall sd :: sd in r ==>
              WellNamed(sd.name) && !IsPseudoEntry(sd.name) && WellFormed(sd.dir) && NoPseudo(sd.dir)
    decreases subdirs
  {
    if subdirs == [] then []
    else
      var name := BaseName(Combine(sdir, subdirs[0].name));
      BaseNameOfCombine(sdir, subdirs[0].name);
      var rest := MirrorSubdirs(sdir, ddir, subdirs[1..], s);
      if IsPseudoEntry(name) then rest
      else [SubDir(name, MirrorDir(Combine(sdir, name), Combine(ddir, name), subdirs[0].dir, s))] + rest
  }

  /** The walk mirrors the tree: the output has the same files and
      subdirectories under the same names, in the same order. */
  lemma {:induction false} MirrorShape(sdir: string, ddir: string, d: Dir, s: Settings)
    requires WellFormed(d) && NoPseudo(d)
    ensures Skeleton(MirrorDir(sdir, ddir, d, s)) == Skeleton(d)
    decreases d
  {
    MirrorFilesShape(sdir, ddir, d.files, s);
    MirrorSubdirsShape(sdir, ddir, d.subdirs, s);
  }

  lemma {:induction false} MirrorFilesShape(sdir: string, ddir: string, files: seq<File>, s: Settings)
    requires forall f :: f in files ==> WellNamed(f.name)
    ensures SkeletonFiles(MirrorFiles(sdir, ddir, files, s)) == SkeletonFiles(files)
    decreases files
  {
    if files != [] {
      MirrorFilesShape(sdir, ddir, files[1..], s);
    }
  }

  lemma {:induction false} MirrorSubdirsShape(sdir: string, ddir: string, subdirs: seq<SubDir>, s: Settings)
    requires forall sd :: sd in subdirs ==>
               WellNamed(sd.name) && WellFormed(sd.dir) && !IsPseudoEntry(sd.name) && NoPseudo(sd.dir)
    ensures SkeletonSubdirs(MirrorSubdirs(sdir, ddir, subdirs, s)) == SkeletonSubdirs(subdirs)
    decreases subdirs
  {
    if subdirs != [] {
      var sd := subdirs[0];
      BaseNameOfCombine(sdir, sd.name);
      MirrorShape(Combine(sdir, sd.name), Combine(ddir, sd.name), sd.dir, s);
      MirrorSubdirsShape(sdir, ddir, subdirs[1..], s);
    }
  }

  /** Two option sets that undo each other: the same header and
      extensions, one adding and the other removing, and no extension with
      a '/' in it. */
  predicate Inverse(add: Settings, remove: Settings) {
    && add.header == remove.header && add.exts == remove.exts
    && add.isAdd && !remove.isAdd && remove.isRemove
    && forall e :: e in add.exts ==> '/' !in e
  }

  /** A walk with remove over the tree that a walk with add wrote gives
      back the original tree, wherever the two trees are listed. */
  lemma {:induction false} MirrorRoundTrip(sdir1: string, ddir1: string, sdir2: string, ddir2: string,
                                           d: Dir, add: Settings, remove: Settings)
    requires WellFormed(d) && NoPseudo(d) && Inverse(add, remove)
    ensures MirrorDir(sdir2, ddir2, MirrorDir(sdir1, ddir1, d, add), remove) == d
    decreases d
  {
    MirrorFilesRoundTrip(sdir1, ddir1, sdir2, ddir2, d.files, add, remove);
    MirrorSubdirsRoundTrip(sdir1, ddir1, sdir2, ddir2, d.subdirs, add, remove);
  }

  lemma MirrorFileRoundTrip(sdir1: string, ddir1: string, sdir2: string, ddir2: string,
                            f: File, add: Settings, remove: Settings)
    requires WellNamed(f.name) && Inverse(add, remove)
    ensures MirrorFile(sdir2, ddir2, MirrorFile(sdir1, ddir1, f, add), remove) == f
  {
    BaseNameOfCombine(sdir1, f.name);
    BaseNameOfCombine(sdir2, f.name);
    SelectedUnderDirectory(sdir1, f.name, add.exts);
    SelectedUnderDirectory(sdir2, f.name, add.exts);
    AddThenRemove(Combine(sdir1, f.name), Combine(ddir1, f.name),
                  Combine(sdir2, f.name), Combine(ddir2, f.name), add, remove, f.content);
  }

  lemma {:induction false} MirrorFilesRoundTrip(sdir1: string, ddir1: string, sdir2: string, ddir2: string,
                                                files: seq<File>, add: Settings, remove: Settings)
    requires (forall f :: f in files ==> WellNamed(f.name)) && Inverse(add, remove)
    ensures MirrorFiles(sdir2, ddir2, MirrorFiles(sdir1, ddir1, files, add), remove) == files
    decreases files
  {
    if files != [] {
      MirrorFileRoundTrip(sdir1, ddir1, sdir2, ddir2, files[0], add, remove);
      MirrorFilesRoundTrip(sdir1, ddir1, sdir2, ddir2, files[1..], add, remove);
      var once := MirrorFiles(sdir1, ddir1, files, add);
      assert once[1..] == MirrorFiles(sdir1, ddir1, files[1..], add);
    }
  }

  /** A subdirectory that is not a pseudo-entry is written under its own
      name, ahead of the rest of the listing. */
  lemma MirrorSubdirsHead(sdir: string, ddir: string, subdirs: seq<SubDir>, s: Settings)
    requires subdirs != [] && !IsPseudoEntry(subdirs[0].name)
    requires forall sd :: sd in subdirs ==> WellNamed(sd.name) && WellFormed(sd.dir)
    ensures var sd := subdirs[0];
      MirrorSubdirs(sdir, ddir, subdirs, s)
      == [SubDir(sd.name, MirrorDir(Combine(sdir, sd.name), Combine(ddir, sd.name), sd.dir, s))]
         + MirrorSubdirs(sdir, ddir, subdirs[1..], s)
  {
    BaseNameOfCombine(sdir, subdirs[0].name);
  }

  lemma {:induction false} MirrorSubdirsRoundTrip(sdir1: string, ddir1: string, sdir2: string, ddir2: string,
                                                  subdirs: seq<SubDir>, add: Settings, remove: Settings)
    requires forall sd :: sd in subdirs ==>
               WellNamed(sd.name) && WellFormed(sd.dir) && !IsPseudoEntry(sd.name) && NoPseudo(sd.dir)
    requires Inverse(add, remove)
    ensures MirrorSubdirs(sdir2, ddir2, MirrorSubdirs(sdir1, ddir1, subdirs, add), remove) == subdirs
    decreases subdirs
  {
    if subdirs != [] {
      var sd := subdirs[0];
      var once := MirrorSubdirs(sdir1, ddir1, subdirs, add);
      MirrorSubdirsHead(sdir1, ddir1, subdirs, add);
      assert once[1..] == MirrorSubdirs(sdir1, ddir1, subdirs[1..], add);
      MirrorSubdirsHead(sdir2, ddir2, once, remove);
      MirrorRoundTrip(Combine(sdir1, sd.name), Combine(ddir1, sd.name),
                      Combine(sdir2, sd.name), Combine(ddir2, sd.name), sd.dir, add, remove);
      MirrorSubdirsRoundTrip(sdir1, ddir1, sdir2, ddir2, subdirs[1..], add, remove);
    }
  }
}
