/** Start-up: the process names come from the command line, and an empty list
    is a usage error that starts neither timer nor server. */
module Launcher {

  /** What `main` does with its arguments. `Panic` is the runtime panic of
      slicing an empty argument vector. */
  datatype Start = Panic | Usage | Monitor(names: seq<string>)

  /** `args` is the whole argument vector; its first element, when present,
      is the program itself. An empty vector is possible (a process started
      with no arguments at all), and then the slice in `main` panics. */
  function Launch(args: seq<string>): (r: Start)
    ensures r.Panic? <==> |args| == 0
    ensures r.Usage? <==> |args| == 1
    ensures r.Monitor? ==> |r.names| == |args| - 1 && forall i :: 0 <= i < |r.names| ==> r.names[i] == args[i + 1]
  {
    if |args| == 0 then Panic
    else
      var names := args[1..];
      if |names| == 0 then Usage else Monitor(names)
  }

  /** The names given after the program name are exactly the names monitored,
      and no names at all is the usage error. */
  lemma LaunchRoundTrip(program: string, names: seq<string>)
    ensures Launch([program] + names) == if |names| == 0 then Usage else Monitor(names)
  {
  }
}
