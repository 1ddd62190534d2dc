# code.header in Dafny

code.header copies a source tree into a new output directory. Every file
whose extension is selected gets a fixed text header (a licence banner)
added at its start, or removed from it. Every other file is copied
unchanged. This project models the string logic of the tool and proves
what it promises:

- `text.dfy` (module `Text`): the .NET string primitives the tool relies on.
  These are `String.Trim`, `LastIndexOf`, `LastIndexOfAny` and `StartsWith`,
  stated over `seq<char>`.
- `cli.dfy` (module `Cli`): the `Options` class.
  - `Parse` fills the positional fields and grows the extension set in a loop.
  - `Validate` checks the paths, classifies the action and loads the header.
- `program.dfy` (module `Program`):
  - `RunFile`: the selection test on the last `.` of the path, and the
    add/remove transform with its error cases.
  - The entry-name extraction and the `.`/`..` skip of `RunDir`.
  - `RunDir` itself, mirrored over an in-memory directory tree, with the
    round-trip law: a run with `remove` over the tree a run with `add`
    wrote gives back the original tree.

Filesystem queries are parameters of the model:

- whether a file or directory exists;
- the text read from the header file or a source file;
- the directory listing, given as the tree.

`RunFile`'s exceptions are `Err` results.

## Model

| member | source | states |
|---|---|---|
| Text.IsWhiteSpace | code.header/Program.cs:78 | the characters `Char.IsWhiteSpace` accepts, which `Trim` removes: U+0009 to U+000D, space, U+0085, U+00A0 and the Unicode space, line and paragraph separators |
| Text.StartsWith | code.header/Program.cs:195 | the content starts with the header: the header is no longer than the content and equals its prefix of that length |
| Text.Trim | code.header/Program.cs:78 | the trimmed extension neither starts nor ends with white space |
| Text.TrimShape | code.header/Program.cs:78 | Trim keeps one infix and cuts only white space before and after it; the result is empty iff the argument is all white space |
| Text.TrimIdempotent | code.header/Program.cs:78 | trimming a trimmed string changes nothing |
| Text.LastIndexOf | code.header/Program.cs:171 | the index of the last `.`, -1 exactly when there is none, and no `.` after it |
| Text.LastIndexOfAny | code.header/Program.cs:138 | the index of the last `/` or `\`, -1 exactly when there is none, and no separator after it |
| Text.LastIndexOfAppend | code.header/Program.cs:171 | in a concatenation the last `.` is in the right part if that part has one, else it is the left part's |
| Cli.IsAddAction | code.header/Program.cs:109 | the action selects add iff it is exactly `add` or `ADD` |
| Cli.IsRemoveAction | code.header/Program.cs:108 | the action selects remove iff it is exactly `remove` or `REMOVE` |
| Cli.ActionsExclusive | code.header/Program.cs:108-109 | no action string sets both IsRemove and IsAdd |
| Cli.Extensions | code.header/Program.cs:76-84 | the set of the trimmed arguments, duplicates collapsed |
| Cli.Newcomers | code.header/Program.cs:79-83 | the extensions the arguments add to a given set, in the order of their first occurrence, which is the order in which they are announced |
| Cli.NewcomersSpec | code.header/Program.cs:79-83 | the announced extensions are exactly the registered ones the set lacked before, each announced once |
| Cli.ExtensionsMembership | code.header/Program.cs:76-84 | a string is a registered extension iff some argument from the fifth on trims to it |
| Cli.ExtensionsAreTrimmed | code.header/Program.cs:76-84 | every registered extension is trimmed; there are no more extensions than arguments |
| Cli.RegisterStep | code.header/Program.cs:78-83 | one loop step keeps the set equal to the old set plus the trimmed arguments seen so far; it announces an extension only when it is new |
| Cli.Options.constructor | code.header/Program.cs:52-61 | a new Options has an empty extension set and both action flags clear |
| Cli.Options.Parse | code.header/Program.cs:63-86 | succeeds iff there are at least 5 arguments, otherwise changes nothing; on success the header file, input, output and action are args[0..3], fileExts gains exactly the trimmed args[4..], the announced extensions are exactly the new ones, each once, in the order of their first occurrence, and the other fields keep their values |
| Cli.Options.Validate | code.header/Program.cs:88-123 | valid iff the header exists, the input directory exists, the output directory does not, and the action is add/ADD or remove/REMOVE; after the path checks pass, IsAdd and IsRemove follow the action exactly; a valid result never sets both flags; the header text is loaded only on success |
| Program.IsSelected | code.header/Program.cs:171-177 | a path is selected iff it contains a `.` and the suffix from its last `.`, dot included, is a registered extension |
| Program.AddHeader | code.header/Program.cs:190 | the added content starts with the header, and what follows the header is exactly the old content |
| Program.RemoveHeader | code.header/Program.cs:195-197 | content that starts with the header becomes what follows the header; any other content is left as it is |
| Program.RunFile | code.header/Program.cs:163-169 | a missing source and an existing destination are refused with their own faults, and the other cases succeed |
| Program.UnselectedIsCopied | code.header/Program.cs:171-184 | a path without a registered suffix from its last `.` is copied unchanged |
| Program.AddPrependsHeader | code.header/Program.cs:188-191 | with add, a selected file is written as the header followed by exactly its content |
| Program.RemoveStripsHeader | code.header/Program.cs:193-206 | with remove, the header is stripped iff the content starts with it; otherwise the content is written unchanged with a warning; with neither flag the content is written back as read |
| Program.RemoveAfterAdd | code.header/Program.cs:190-197 | removing the header from header + content gives back the content |
| Program.AddAfterRemove | code.header/Program.cs:195-197 | content that starts with the header is the header followed by what remove leaves |
| Program.RemoveWithoutHeader | code.header/Program.cs:200-203 | content that does not start with the header passes remove unchanged |
| Program.SelectedIff | code.header/Program.cs:171-177 | a path is selected iff it has a `.` with no `.` after it whose suffix, dot included, is registered |
| Program.AddThenRemove | code.header/Program.cs:186-206 | remove applied to what add wrote restores the content exactly, with HeaderRemoved for selected files and Copied for the rest |
| Program.BaseName | code.header/Program.cs:137-142 | the entry name holds no separator, is a suffix of the path, and is preceded by a separator when shorter than the path |
| Program.IsPseudoEntry | code.header/Program.cs:156 | the names `.` and `..`, which the walk does not recurse into |
| Program.Combine | code.header/Program.cs:144 | Path.Combine on Unix: an empty part yields the other, a second part starting with `/` replaces the first, otherwise the parts are joined with one `/` |
| Program.CombineSplit | code.header/Program.cs:144 | Path.Combine puts an entry name after a prefix that is empty or ends in `/` |
| Program.BaseNameOfCombine | code.header/Program.cs:149-154 | the name extracted from a combined path is the entry's own name |
| Program.SelectedUnderDirectory | code.header/Program.cs:144 | when no extension contains `/`, a combined path is selected exactly when the entry name alone is |
| Program.MirrorFile | code.header/Program.cs:137-144 | the output file keeps the listed file's name |
| Program.MirrorFiles | code.header/Program.cs:135-145 | one output file per listed file, all well named |
| Program.MirrorDir | code.header/Program.cs:126-161 | the written tree is well named and contains no `.` or `..` subdirectory |
| Program.MirrorSubdirs | code.header/Program.cs:147-160 | every subdirectory written is well named, is not `.` or `..`, and holds a well-formed tree |
| Program.MirrorShape | code.header/Program.cs:126-161 | the output tree has the same files and subdirectories, with the same names in the same order, as the input |
| Program.MirrorFilesShape | code.header/Program.cs:135-145 | the files of a directory keep their names and order |
| Program.MirrorSubdirsHead | code.header/Program.cs:149-159 | a subdirectory that is not `.` or `..` is written under its own name, before the rest of the listing |
| Program.MirrorSubdirsShape | code.header/Program.cs:147-160 | the subdirectories keep their names and order |
| Program.MirrorRoundTrip | code.header/Program.cs:126-207 | when no registered extension contains `/`, running remove over the tree that add wrote gives back the original tree, wherever the two trees are placed |
| Program.MirrorFileRoundTrip | code.header/Program.cs:137-144 | remove after add restores one listed file, name and content |
| Program.MirrorFilesRoundTrip | code.header/Program.cs:135-145 | remove after add restores a directory's files |
| Program.MirrorSubdirsRoundTrip | code.header/Program.cs:147-160 | remove after add restores a directory's subdirectories |

## Left out

- Filesystem I/O is not modelled. This covers `File.Exists`, `Directory.Exists`, `Directory.CreateDirectory`, `File.Copy`, `File.ReadAllText` and `File.WriteAllText`. Their outcomes are parameters, and the tree walk returns the tree it would write.
- Console output and the usage message are modelled only in two places. `Cli.Options.Parse` returns the `announced` list, the extensions it reports as supported (code.header/Program.cs:82). The `Event` value of `RunFile` records which message would be printed, including the warning when the header is not found. No other output is modelled.
- Text encoding, byte-order marks and the byte-for-byte nature of `File.Copy` are not modelled; contents are `seq<char>`.
- `Main` is not modelled. It only calls `Parse`, `Validate` and `RunDir` in turn.
- C# strings that start as null are modelled as the empty string.
- `Settings` stands for the `Options` after a successful `Validate`: its header, extensions and action flags. No lemma derives `Program.Inverse` from two `Validate` calls, because `Validate` is a method and lemmas cannot call it. Its postconditions give the flags (`IsAdd` for `add`/`ADD`, `IsRemove` for `remove`/`REMOVE`, never both) that `Inverse` asks for.
- Program.RemoveStripsHeader, Program.RunFile, Text.StartsWith, Program.AddThenRemove, Program.MirrorRoundTrip: `StartsWith(string)` in .NET compares using the current culture. The model compares ordinally, character by character. Under a culture-sensitive comparison `header + content` need not start with `header` (content beginning with a combining mark, for one), so the round trip is promised only for the ordinal comparison.
- Program.Combine: only the Unix behaviour of `Path.Combine` is modelled. Windows drive letters and `\` as a separator are not.
- Program.MirrorDir: the checks at the top of `RunDir` are not modelled (source directory missing, destination already present). Nor are the faults `RunFile` could raise inside the walk. The walk assumes a fresh destination and the listing it reads.
- Program.MirrorDir: every entry name must be non-empty and free of `/` and `\`. On Unix an entry name containing `\` is cut at that character (code.header/Program.cs:137-142, 149-154), so the recombined path points at another entry. For a file, the run then aborts with a missing source, or with an existing destination when a sibling has the cut name (code.header/Program.cs:165-169). A subdirectory named `x\y` is looked up as `sdir/y`. The run then aborts with a missing source directory (code.header/Program.cs:128-129), or, when a sibling `y` exists, on that sibling's second visit because the destination exists (code.header/Program.cs:131-132). A subdirectory named `x\.` or `x\..` is cut to `.` or `..` and skipped without a message (code.header/Program.cs:156). The model does not cover such names.
- Program.MirrorDir: the order of entries is the order in the tree. The operating system decides the real listing order.
- The message for an existing destination directory names the source directory (code.header/Program.cs:132). Messages are not modelled.
- Program.MirrorRoundTrip: the round trip is promised only when no registered extension contains `/`. With such an extension the selection depends on the directory. For example, with the extension `.d/Makefile`, the file `Makefile` is selected under `x.d` but not under `out`.
- Program.MirrorDir: the input tree is assumed not to contain the output directory. `RunDir` creates the destination (code.header/Program.cs:134) before it lists the subdirectories (code.header/Program.cs:147). So an output directory inside the input directory would be listed and walked into again, until the paths grow too long and the run aborts.
- Facts about the code that the model follows:
  - The extension includes the dot.
  - The extension is taken from the whole path, not from the file name alone. `Program.SelectedUnderDirectory` shows the two agree whenever no registered extension contains `/`.
  - Only `add`, `ADD`, `remove` and `REMOVE` are accepted as actions. `Add` is refused.
  - Under ordinal comparison (see above), the round trip needs no condition on the content. `Program.RemoveAfterAdd` shows that remove strips exactly one copy of the header, even from content that already started with it.
