/**
 * The command-line front end's recognisers (`isCommand`, `isStructureFile`,
 * `isImageFile`) and the scans of the optional arguments of the `convert`
 * and `mapart` commands.
 */
module CommandLine {
  import opened Text

  /** Linear membership in a list of strings, as the recognisers' range loops do it. */
  function Listed(list: seq<string>, x: string): (r: bool)
    ensures r <==> x in list
    decreases |list|
  {
    if |list| == 0 then false
    else if list[0] == x then true
    else
      assert list == [list[0]] + list[1..];
      Listed(list[1..], x)
  }

  /** The command words and their aliases. */
  const Commands: seq<string> := [
    "convert", "c",
    "mapart", "m",
    "encrypt", "e",
    "decrypt", "d",
    "list", "l",
    "parse", "p",
    "quota", "q",
    "help", "h", "-h", "--help"
  ]

  /** The extensions of the structure formats the tool reads. */
  const StructureExts: seq<string> := [
    ".bdx", ".schematic", ".litematic", ".mcstructure",
    ".schem", ".nbt", ".schemv1", ".schemv2",
    ".tibi", ".bds", ".construction", ".nexus_np",
    ".axiom_bp", ".gangban_v3", ".fuhong_v4", ".kbdx",
    ".ibimport"
  ]

  /** The extensions of the images the map-art command reads. */
  const ImageExts: seq<string> := [".jpg", ".jpeg", ".png", ".bmp", ".gif", ".webp"]

  /** `isCommand`: true exactly for the listed command words. */
  function IsCommand(arg: string): (r: bool)
    ensures r <==> arg in Commands
  {
    Listed(Commands, arg)
  }

  /** `isStructureFile`: true exactly for the listed structure extensions. */
  function IsStructureFile(ext: string): (r: bool)
    ensures r <==> ext in StructureExts
  {
    Listed(StructureExts, ext)
  }

  /** `isImageFile`: true exactly for the listed image extensions. */
  function IsImageFile(ext: string): (r: bool)
    ensures r <==> ext in ImageExts
  {
    Listed(ImageExts, ext)
  }

  /** Every extension either recogniser accepts is a dot and at least one more character. */
  lemma ExtensionsStartWithDot(ext: string)
    requires IsStructureFile(ext) || IsImageFile(ext)
    ensures |ext| > 1 && ext[0] == '.'
  {
    if ext in StructureExts {
      StructureExtsDotted(ext);
    } else {
      ImageExtsDotted(ext);
    }
  }

  lemma StructureExtsDotted(ext: string)
    requires ext in StructureExts
    ensures |ext| > 1 && ext[0] == '.'
  {
  }

  lemma ImageExtsDotted(ext: string)
    requires ext in ImageExts
    ensures |ext| > 1 && ext[0] == '.'
  {
  }

  /** No extension is both a structure format and an image, so file dispatch is unambiguous. */
  lemma ExtensionsDisjoint(ext: string)
    ensures !(IsStructureFile(ext) && IsImageFile(ext))
  {
    if ext in ImageExts {
      ImageIsNotStructure(ext);
    }
  }

  lemma ImageIsNotStructure(ext: string)
    requires ext in ImageExts
    ensures ext !in StructureExts
  {
  }

  /** No command word begins with a dot, so a command is never taken for a file extension. */
  lemma CommandIsNotExtension(arg: string)
    requires IsCommand(arg)
    ensures !IsStructureFile(arg) && !IsImageFile(arg)
  {
    CommandsUndotted(arg);
    if IsStructureFile(arg) || IsImageFile(arg) {
      ExtensionsStartWithDot(arg);
    }
  }

  lemma CommandsUndotted(arg: string)
    requires arg in Commands
    ensures |arg| > 0 && arg[0] != '.'
  {
  }

  /**
   * The `convert` command's scan of the arguments after the target format:
   * `--fast` anywhere switches on fast mode; the first other argument that is
   * not empty is the output path, and later ones are ignored. An empty
   * argument leaves the output path unset, so the next one may fill it.
   */
  method ScanConvertArgs(args: seq<string>) returns (outputPath: string, useFast: bool)
    requires |args| >= 4
    ensures useFast <==> exists k :: 4 <= k < |args| && args[k] == "--fast"
    ensures outputPath == "" <==> forall k :: 4 <= k < |args| ==> args[k] == "--fast" || args[k] == ""
    ensures outputPath != "" ==>
              exists k :: 4 <= k < |args| && args[k] == outputPath && args[k] != "--fast"
                          && forall j :: 4 <= j < k ==> args[j] == "--fast" || args[j] == ""
  {
    outputPath := "";
    useFast := false;
    for i := 4 to |args|
      invariant useFast <==> exists k :: 4 <= k < i && args[k] == "--fast"
      invariant outputPath == "" <==> forall k :: 4 <= k < i ==> args[k] == "--fast" || args[k] == ""
      invariant outputPath != "" ==>
                  exists k :: 4 <= k < i && args[k] == outputPath && args[k] != "--fast"
                              && forall j :: 4 <= j < k ==> args[j] == "--fast" || args[j] == ""
    {
      if args[i] == "--fast" {
        useFast := true;
      } else if outputPath == "" {
        outputPath := args[i];
      }
    }
  }

  /**
   * The `mapart` command's scan of the arguments after the world path. The
   * scan stops at the first argument starting with `--`, or at the first
   * argument after the output path has been set; everything from there on is
   * passed on as options. Before that point every argument is empty except
   * the output path, which is the last one read.
   */
  method ScanMapartArgs(args: seq<string>) returns (outputPath: string, options: seq<string>)
    requires |args| >= 4
    ensures |options| <= |args| - 4 && options == args[|args| - |options|..]
    ensures forall j :: 4 <= j < |args| - |options| ==> !HasPrefix(args[j], "--")
    ensures outputPath == "" ==> forall j :: 4 <= j < |args| - |options| ==> args[j] == ""
    ensures outputPath != "" ==>
              && |args| - |options| > 4
              && args[|args| - |options| - 1] == outputPath
              && forall j :: 4 <= j < |args| - |options| - 1 ==> args[j] == ""
    ensures |options| > 0 ==> HasPrefix(options[0], "--") || outputPath != ""
  {
    outputPath := "";
    options := [];
    var i := 4;
    while i < |args|
      invariant 4 <= i <= |args|
      invariant forall j :: 4 <= j < i ==> !HasPrefix(args[j], "--")
      invariant outputPath == "" ==> forall j :: 4 <= j < i ==> args[j] == ""
      invariant outputPath != "" ==> i > 4 && args[i - 1] == outputPath && forall j :: 4 <= j < i - 1 ==> args[j] == ""
    {
      if HasPrefix(args[i], "--") {
        options := args[i..];
        return;
      } else if outputPath == "" {
        outputPath := args[i];
      } else {
        options := args[i..];
        return;
      }
      i := i + 1;
    }
  }
}
