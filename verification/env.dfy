/** The collaborators the shell calls but whose code is not part of this
    model: the shell-words tokenizer, the quoting of completions, the home
    directory lookup, the glob matchers, the fuzzy pickers, the pager, the
    column formatter, the terminal width and os.RemoveAll.  Each is a plain
    value or a total function, so the model is deterministic in them. */
module Oracles {
  import opened Outcomes
  import opened Store

  /** What the tokenizer makes of a line: its words, and whether it read
      the whole line (the parser's position is -1), or a parse error. */
  datatype Parsed = Words(words: seq<string>, complete: bool) | ParseError(err: Error)

  /** One row of a long listing: a name and what stat said about it. */
  datatype Row = Row(name: string, node: Node)

  datatype Env = Env(
    parse: string -> Parsed,                                // shellwords
    quote: string -> string,                                // quote
    home: Res<string>,                                      // homedir.Dir
    remoteGlob: (Store, string, string) -> Res<seq<string>>, // lib.SFTPGlob
    localGlob: (Store, string, string) -> Res<seq<string>>,  // lib.LocalGlob
    fuzzyRemote: (Store, string) -> Res<seq<string>>,        // lib.FuzzyRemote
    fuzzyLocal: (Store, string) -> Res<seq<string>>,         // lib.FuzzyLocal
    show: (string, Node) -> Option<Error>,                   // lib.ShowFile
    format: (int, seq<Row>) -> string,                       // lib.FormatListOfFiles
    width: int,                                              // the terminal width
    removeAll: (Store, string) -> (Store, Option<Error>)     // os.RemoveAll
  )

  /** os.RemoveAll only ever removes: whatever it returns, the tree it
      leaves is well formed if the one it was given was. */
  ghost predicate RemoveAllKeepsTree(env: Env)
  {
    forall s, p :: WF(s) ==> WF(env.removeAll(s, p).0)
  }
}
