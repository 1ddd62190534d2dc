// The command-line options of the header tool: positional argument
// parsing, action classification and the validation gate that runs before
// the directory walk.

module Cli {
  import opened Text

  /** The action strings the tool accepts: exactly these spellings, so
      "Add" or "Remove" are refused. */
  predicate IsAddAction(action: string) {
    action == "add" || action == "ADD"
  }

  predicate IsRemoveAction(action: string) {
    action == "remove" || action == "REMOVE"
  }

  /** No action string selects both add and remove. */
  lemma ActionsExclusive(action: string)
    ensures !(IsAddAction(action) && IsRemoveAction(action))
  {
  }

  /** The extension set that the arguments after the action register:
      each argument trimmed, duplicates collapsed. */
  function Extensions(args: seq<string>): set<string>
    decreases |args|
  {
    if args == [] then {}
    else Extensions(args[..|args| - 1]) + {Trim(args[|args| - 1])}
  }

  /** An extension is registered iff some argument trims to it. */
  lemma {:induction false} ExtensionsMembership(args: seq<string>, e: string)
    ensures e in Extensions(args) <==> exists i :: 0 <= i < |args| && Trim(args[i]) == e
    decreases |args|
  {
    if args != [] {
      var n := |args| - 1;
      var init := args[..n];
      assert Extensions(args) == Extensions(init) + {Trim(args[n])};
      ExtensionsMembership(init, e);
      if e in Extensions(args) {
        if e in Extensions(init) {
          var i :| 0 <= i < |init| && Trim(init[i]) == e;
          assert args[i] == init[i];
        } else {
          assert Trim(args[n]) == e;
        }
      } else {
        forall i | 0 <= i < |args| ensures Trim(args[i]) != e {
          if i < n {
            assert args[i] == init[i];
          }
        }
      }
    }
  }

  /** Every registered extension is already trimmed, and there are at most
      as many extensions as arguments. */
  lemma {:induction false} ExtensionsAreTrimmed(args: seq<string>)
    ensures forall e :: e in Extensions(args) ==> Trim(e) == e
    ensures |Extensions(args)| <= |args|
    decreases |args|
  {
    if args != [] {
      var init := args[..|args| - 1];
      ExtensionsAreTrimmed(init);
      TrimIdempotent(args[|args| - 1]);
      var x := Trim(args[|args| - 1]);
      assert |Extensions(init) + {x}| <= |Extensions(init)| + 1 by {
        if x !in Extensions(init) {
          assert |Extensions(init) + {x}| == |Extensions(init)| + 1;
        } else {
          assert Extensions(init) + {x} == Extensions(init);
        }
      }
    }
  }

  /** The extensions that args add to base, in the order of their first
      occurrence among the trimmed arguments. */
  function Newcomers(base: set<string>, args: seq<string>): seq<string>
    decreases |args|
  {
    if args == [] then []
    else
      var init := args[..|args| - 1];
      var s1 := Trim(args[|args| - 1]);
      if s1 in base + Extensions(init) then Newcomers(base, init)
      else Newcomers(base, init) + [s1]
  }

  /** Each newcomer is an extension that args register and base lacks,
      every such extension is a newcomer, and none is listed twice. */
  lemma {:induction false} NewcomersSpec(base: set<string>, args: seq<string>)
    ensures SetOf(Newcomers(base, args)) == Extensions(args) - base
    ensures var n := Newcomers(base, args);
      forall a, b :: 0 <= a < b < |n| ==> n[a] != n[b]
    decreases |args|
  {
    if args != [] {
      var init := args[..|args| - 1];
      var s1 := Trim(args[|args| - 1]);
      NewcomersSpec(base, init);
      var prev := Newcomers(base, init);
      if s1 !in base + Extensions(init) {
        assert SetOf(prev + [s1]) == SetOf(prev) + {s1};
        assert s1 !in SetOf(prev);
      }
    }
  }

  /** The state Parse keeps while it registers the extensions in args:
      exts holds base and every trimmed argument, and `announced` lists
      the newcomers. */
  predicate Registered(base: set<string>, exts: set<string>, announced: seq<string>,
                       args: seq<string>) {
    && exts == base + Extensions(args)
    && announced == Newcomers(base, args)
  }

  lemma RegisterStep(base: set<string>, exts: set<string>, announced: seq<string>,
                     args: seq<string>, i: nat)
    requires 4 <= i < |args|
    requires Registered(base, exts, announced, args[4..i])
    ensures var s1 := Trim(args[i]);
      if s1 in exts then Registered(base, exts, announced, args[4..i + 1])
      else Registered(base, exts + {s1}, announced + [s1], args[4..i + 1])
  {
    var next := args[4..i + 1];
    assert next[..|next| - 1] == args[4..i] && next[|next| - 1] == args[i];
    assert Extensions(next) == Extensions(args[4..i]) + {Trim(args[i])};
  }

  /** The read-only view of the options that the directory walk uses: the
      header, extensions and action flags of an Options after a successful
      Validate. */
  datatype Settings = Settings(header: string, exts: set<string>, isAdd: bool, isRemove: bool)

  function SetOf(xs: seq<string>): set<string> {
    set x | x in xs
  }

  class Options {
    var headerFile: string
    var headerContent: string
    var inputDir: string
    var outputDir: string
    var action: string
    var isRemove: bool
    var isAdd: bool
    var fileExts: set<string>

    /** A new Options holds no extension; the strings that C# leaves null
        start out empty. */
    constructor ()
      ensures fileExts == {} && !isRemove && !isAdd
      ensures headerFile == headerContent == inputDir == outputDir == action == ""
    {
      headerFile, headerContent, inputDir, outputDir, action := "", "", "", "", "";
      isRemove, isAdd := false, false;
      fileExts := {};
    }

    /** Options.Parse. Fewer than five arguments are refused and nothing
        changes. Otherwise the first four arguments are the header file,
        the input and output directories and the action, and every further
        argument, trimmed, joins the extension set. `announced` lists the
        extensions reported as newly supported, each once, in the order of
        their first occurrence. */
    method Parse(args: seq<string>) returns (ok: bool, announced: seq<string>)
      modifies this
      ensures ok <==> |args| >= 5
      ensures !ok ==> unchanged(this) && announced == []
      ensures ok ==> headerFile == args[0] && inputDir == args[1]
                     && outputDir == args[2] && action == args[3]
      ensures ok ==> fileExts == old(fileExts) + Extensions(args[4..])
      ensures headerContent == old(headerContent)
      ensures isRemove == old(isRemove) && isAdd == old(isAdd)
      ensures ok ==> announced == Newcomers(old(fileExts), args[4..])
      ensures SetOf(announced) == fileExts - old(fileExts)
      ensures forall i, j :: 0 <= i < j < |announced| ==> announced[i] != announced[j]
    {
      if |args| < 5 {
        assert SetOf([]) == {};
        return false, [];
      }
      headerFile := args[0];
      inputDir := args[1];
      outputDir := args[2];
      action := args[3];
      announced := [];
      for i := 4 to |args|
        invariant headerFile == args[0] && inputDir == args[1]
        invariant outputDir == args[2] && action == args[3]
        invariant headerContent == old(headerContent)
        invariant isRemove == old(isRemove) && isAdd == old(isAdd)
        invariant Registered(old(fileExts), fileExts, announced, args[4..i])
      {
        var s1 := Trim(args[i]);
        RegisterStep(old(fileExts), fileExts, announced, args, i);
        if s1 !in fileExts {
          fileExts := fileExts + {s1};
          announced := announced + [s1];
        }
      }
      assert args[4..|args|] == args[4..];
      NewcomersSpec(old(fileExts), args[4..]);
      ok := true;
    }

    /** Options.Validate. The header file and the input directory must
        exist and the output directory must not; the existence tests and
        the text read from the header file are parameters. Once those pass,
        the action flags are set from the action string, and the options
        are valid iff one of them holds, in which case the header text is
        kept. */
    method Validate(headerExists: bool, inputDirExists: bool, outputDirExists: bool,
                    headerText: string) returns (ok: bool)
      modifies this
      ensures ok <==> headerExists && inputDirExists && !outputDirExists
                      && (IsAddAction(action) || IsRemoveAction(action))
      ensures headerExists && inputDirExists && !outputDirExists ==>
                isRemove == IsRemoveAction(action) && isAdd == IsAddAction(action)
      ensures !(headerExists && inputDirExists && !outputDirExists) ==>
                isRemove == old(isRemove) && isAdd == old(isAdd)
      ensures ok ==> isAdd != isRemove
      ensures headerContent == if ok then headerText else old(headerContent)
      ensures headerFile == old(headerFile) && inputDir == old(inputDir)
      ensures outputDir == old(outputDir) && action == old(action)
      ensures fileExts == old(fileExts)
    {
      if !headerExists {
        return false;
      }
      if !inputDirExists {
        return false;
      }
      if outputDirExists {
        return false;
      }
      isRemove := action == "remove" || action == "REMOVE";
      isAdd := action == "add" || action == "ADD";
      if !isRemove && !isAdd {
        return false;
      }
      headerContent := headerText;
      return true;
    }
  }
}
