/** The argument reader: positional arguments become the root directory and
    the extension filter. There are no error cases at this stage. */
module Args {
  import opened Text

  /** The parsed invocation. An empty `fileExt` means "no filter". */
  datatype Args = Args(directory: string, fileExt: seq<string>)

  const DefaultDirectory: string := "."

  /** Parses the arguments that follow the program name. The first one, if
      any, is the directory; the second one, if any, is cut at every ','
      into literal extension pieces. Further arguments are ignored. */
  function GetArgs(argv: seq<string>): (a: Args)
    ensures |argv| == 0 ==> a.directory == "."
    ensures |argv| > 0 ==> a.directory == argv[0]
    ensures |argv| < 2 <==> |a.fileExt| == 0
    ensures |argv| >= 2 ==>
              && |a.fileExt| == Occurrences(argv[1], ',') + 1
              && (forall i :: 0 <= i < |a.fileExt| ==> ',' !in a.fileExt[i])
  {
    var directory := if |argv| > 0 then argv[0] else DefaultDirectory;
    var fileExt := if |argv| >= 2 then Split(argv[1], ',') else [];
    Args(directory, fileExt)
  }

  /** When an extension argument is present, joining the parsed pieces with
      ',' reproduces it exactly, and it is the only comma-free decomposition
      that does. */
  lemma ExtensionsRoundTrip(argv: seq<string>, pieces: seq<string>)
    requires |argv| >= 2
    ensures Join(GetArgs(argv).fileExt, ',') == argv[1]
    ensures |pieces| > 0 && (forall i :: 0 <= i < |pieces| ==> ',' !in pieces[i])
            && Join(pieces, ',') == argv[1]
            ==> GetArgs(argv).fileExt == pieces
  {
    JoinSplit(argv[1], ',');
    if |pieces| > 0 && (forall i :: 0 <= i < |pieces| ==> ',' !in pieces[i])
       && Join(pieces, ',') == argv[1] {
      SplitJoin(pieces, ',');
    }
  }

  /** An empty extension argument is one empty piece, not "no filter". */
  lemma EmptyExtensionArgument(dir: string)
    ensures GetArgs([dir, ""]).fileExt == [""]
  {
  }
}
