/** Values shared by every part of the shell: optional values, the errors the
    shell and its backends produce, and the lines written to the info and
    error sinks. */
module Outcomes {

  datatype Option<T> = None | Some(value: T)

  /** The errors of the shell.  Backend errors carry the path they concern;
      `Message` is an error built from fixed text (`errors.New`). */
  datatype Error =
    | NotExist(path: string)
    | Exist(path: string)
    | NotADirectory(path: string)
    | IsADirectory(path: string)
    | InvalidArgument(path: string)
    | NotEmpty(path: string)
    | Denied(path: string)
    | Busy(path: string)
    | Message(text: string)
    | UnknownCommand(cmd: string)
    | ParseFailure
    | IndexOutOfRange
    | EndOfSession
    | InvalidPattern(pattern: string, cause: Error)
    | ListingFailed(cause: Error)
    | External(text: string)

  datatype Res<T> = Ok(value: T) | Fail(err: Error)

  /** One line written to the info sink or to the error sink, with the
      format string of the source named in the comment. */
  datatype LogEntry =
    | Failed(subject: string, err: Error)          // "%s: %s"
    | RmdirFailed(path: string, err: Error)        // "rmdir on %s: %s"
    | RmFailed(path: string, err: Error)           // "rm on %s: %s"
    | NotRegular(name: string)                     // "not a regular file: %s"
    | DownloadFailed(path: string, err: Error)     // "download %s: %s"
    | UploadFailed(path: string, err: Error)       // "upload %s: %s"
    | Downloaded(path: string)                     // info: "downloaded %s"
    | Uploaded(path: string)                       // info: "uploaded %s"
  {
    /** True for lines that go to the error sink. */
    predicate IsError()
    {
      !(Downloaded? || Uploaded?)
    }
  }

  /** The number of error-sink lines in a log. */
  function ErrorCount(log: seq<LogEntry>): (n: nat)
    ensures n <= |log|
    ensures n == 0 <==> forall i :: 0 <= i < |log| ==> !log[i].IsError()
  {
    if log == [] then 0
    else
      (if log[0].IsError() then 1 else 0) + ErrorCount(log[1..])
  }

  lemma {:induction false} ErrorCountAppend(a: seq<LogEntry>, b: seq<LogEntry>)
    ensures ErrorCount(a + b) == ErrorCount(a) + ErrorCount(b)
  {
    if a != [] {
      assert (a + b)[1..] == a[1..] + b;
      ErrorCountAppend(a[1..], b);
    } else {
      assert a + b == b;
    }
  }
}
