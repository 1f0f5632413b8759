/**
 * The `delete <owner/repo>` command of internal/commands/delete.go: parse
 * the argument, check that the repository exists, ask for confirmation
 * unless `--force` is given, and delete it. The client, the remote API and
 * the console are an `Environment` of outcomes fixed in advance; the run
 * returns the effects it performs, in order, and its exit status.
 */
module DeleteCommand {
  import opened Wrappers
  import opened Strings
  import opened Api

  /** The repository named on the command line. */
  datatype Target = Target(owner: string, repo: string)

  /**
   * `strings.Split(arg, "/")` followed by the check that there are exactly
   * two parts. Empty parts are not rejected.
   */
  function ParseTarget(arg: string): (t: Option<Target>)
    ensures t.Some? <==> Count(arg, '/') == 1
    ensures t.Some? ==> '/' !in t.value.owner && '/' !in t.value.repo
  {
    var parts := Split(arg, '/');
    if |parts| != 2 then None else Some(Target(parts[0], parts[1]))
  }

  /**
   * An argument is accepted exactly when it holds one slash, and then the
   * owner and the name are the slash-free text before and after it.
   */
  lemma ParseTargetSplitsAtSlash(arg: string)
    ensures ParseTarget(arg).Some? <==> Count(arg, '/') == 1
    ensures ParseTarget(arg).Some? ==>
              var t := ParseTarget(arg).value;
              t.owner + "/" + t.repo == arg && '/' !in t.owner && '/' !in t.repo
  {
    var parts := Split(arg, '/');
    if |parts| == 2 {
      assert parts[1..] == [parts[1]];
      assert Join(parts, '/') == parts[0] + "/" + parts[1];
    }
  }

  /** Every owner and name without a slash is parsed back from `owner/name`. */
  lemma ParseJoined(owner: string, repo: string)
    requires '/' !in owner && '/' !in repo
    ensures ParseTarget(owner + "/" + repo) == Some(Target(owner, repo))
  {
    SplitJoin([owner, repo], '/');
  }

  /** The arguments the command accepts, empty parts included. */
  lemma ParseAccepts()
    ensures ParseTarget("owner/repo") == Some(Target("owner", "repo"))
    ensures ParseTarget("/x") == Some(Target("", "x"))
    ensures ParseTarget("x/") == Some(Target("x", ""))
  {
    ParseJoined("owner", "repo");
    assert "owner" + "/" + "repo" == "owner/repo";
    ParseJoined("", "x");
    assert "" + "/" + "x" == "/x";
    ParseJoined("x", "");
    assert "x" + "/" + "" == "x/";
  }

  /** Arguments without a slash, the empty one included, and arguments with two slashes are rejected. */
  lemma ParseRejects()
    ensures ParseTarget("ownerrepo") == None
    ensures ParseTarget("") == None
    ensures ParseTarget("a/b/c") == None
  {
    CountZero("ownerrepo", '/');
    SplitJoin(["a", "b", "c"], '/');
    assert Join(["a", "b", "c"], '/') == "a/b/c";
  }

  /** `strings.ToLower(confirm) == "y" || strings.ToLower(confirm) == "yes"`. */
  predicate IsConfirmation(answer: string)
  {
    var lower := ToLower(answer);
    lower == "y" || lower == "yes"
  }

  /** Every spelling of `y` and `yes`, in any letter case. */
  const ConfirmingAnswers: set<string> :=
    {"y", "Y", "yes", "yeS", "yEs", "yES", "Yes", "YeS", "YEs", "YES"}

  lemma LowerIs(ch: char, lower: char)
    requires lower in "yes"
    ensures LowerChar(ch) == lower <==> ch == lower || ch == (lower as int - 32) as char
  {
  }

  /** The deletion goes ahead on exactly the ten spellings of `y` and `yes`; anything else, the empty answer included, cancels it. */
  lemma ConfirmationAnswers(answer: string)
    ensures IsConfirmation(answer) <==> answer in ConfirmingAnswers
  {
    if |answer| == 1 {
      LowerIs(answer[0], 'y');
      assert answer == [answer[0]];
    } else if |answer| == 3 {
      LowerIs(answer[0], 'y');
      LowerIs(answer[1], 'e');
      LowerIs(answer[2], 's');
      assert answer == [answer[0], answer[1], answer[2]];
    } else {
      assert |ToLower(answer)| == |answer|;
    }
  }

  /** What the outside world answers during one run of the command. */
  datatype Environment = Environment(
    clientError: Option<string>,     // failure of auth.GetAPIClient
    lookupError: Option<ApiError>,   // failure of GitHubClient.GetRepository
    answer: string,                  // the word fmt.Scanln reads at the prompt
    deleteError: Option<ApiError>)   // failure of GitHubClient.DeleteRepository

  /** The observable steps of a run. */
  datatype Effect =
    | Stdout(text: string)
    | Stderr(text: string)
    | GetClient
    | GetRepository(owner: string, repo: string)
    | ReadAnswer
    | DeleteRepository(owner: string, repo: string)

  /** The process exit status: 0, or 1 from `os.Exit(1)`. */
  datatype ExitCode = Success | Failure

  const InvalidFormat := "Error: Invalid repository format. Use 'owner/repo'\n"
  const Cancelled := "Operation cancelled.\n"

  function NotFoundMessage(owner: string, repo: string): string
  {
    "Error: Repository '" + owner + "/" + repo + "' not found\n"
  }

  /** For an accepted argument, the not-found message names the argument as typed. */
  lemma NotFoundNamesArgument(arg: string)
    requires ParseTarget(arg).Some?
    ensures NotFoundMessage(ParseTarget(arg).value.owner, ParseTarget(arg).value.repo)
            == "Error: Repository '" + arg + "' not found\n"
  {
    ParseTargetSplitsAtSlash(arg);
    var t := ParseTarget(arg).value;
    calc {
      NotFoundMessage(t.owner, t.repo);
      "Error: Repository '" + (t.owner + "/" + t.repo) + "' not found\n";
      "Error: Repository '" + arg + "' not found\n";
    }
  }

  function CheckingMessage(e: ApiError): string
  {
    "Error checking repository: " + e.Text() + "\n"
  }

  function DeletingMessage(e: ApiError): string
  {
    "Error deleting repository: " + e.Text() + "\n"
  }

  function Prompt(arg: string): string
  {
    "Are you sure you want to delete '" + arg + "'? This action cannot be undone: "
  }

  function SuccessMessage(arg: string): string
  {
    "\U{2714}\U{FE0F} Repository '" + arg + "' deleted successfully.\n"
  }


  /** The delete calls in `trace`, in order. */
  function Deletions(trace: seq<Effect>): seq<Effect>
  {
    if trace == [] then []
    else (if trace[0].DeleteRepository? then [trace[0]] else []) + Deletions(trace[1..])
  }

  lemma {:induction false} DeletionsAppend(a: seq<Effect>, b: seq<Effect>)
    ensures Deletions(a + b) == Deletions(a) + Deletions(b)
  {
    if a != [] {
      assert (a + b)[1..] == a[1..] + b;
      DeletionsAppend(a[1..], b);
    } else {
      assert a + b == b;
    }
  }

  lemma {:induction false} NoDeletions(trace: seq<Effect>)
    requires forall i :: 0 <= i < |trace| ==> !trace[i].DeleteRepository?
    ensures Deletions(trace) == []
  {
    if trace != [] {
      NoDeletions(trace[1..]);
    }
  }

  /** The effects of a run, in order, and its exit status. */
  datatype RunResult = RunResult(trace: seq<Effect>, exit: ExitCode)

  /** The message of a failed lookup: a precise one for 404, the generic one otherwise. */
  function LookupMessage(t: Target, e: ApiError): string
  {
    if e.IsNotFound() then NotFoundMessage(t.owner, t.repo) else CheckingMessage(e)
  }

  /**
   * The specification of `deleteCmd.Run`: the effects and exit status of a
   * run, as a value. The properties of the command are proved about this
   * function; the method `Run` is the imperative body, proved to meet it.
   */
  function Expected(arg: string, force: bool, env: Environment): RunResult
  {
    match ParseTarget(arg)
    case None => RunResult([Stderr(InvalidFormat)], Failure)
    case Some(t) =>
      if env.clientError.Some? then
        RunResult([GetClient, Stderr("Error: " + env.clientError.value + "\n")], Failure)
      else if env.lookupError.Some? then
        RunResult([GetClient, GetRepository(t.owner, t.repo), Stderr(LookupMessage(t, env.lookupError.value))], Failure)
      else
        var checked := [GetClient, GetRepository(t.owner, t.repo)];
        var confirmation := if force then [] else [Stdout(Prompt(arg)), ReadAnswer];
        if !force && !IsConfirmation(env.answer) then
          RunResult(checked + confirmation + [Stdout(Cancelled)], Success)
        else if env.deleteError.Some? then
          RunResult(checked + confirmation + [DeleteRepository(t.owner, t.repo), Stderr(DeletingMessage(env.deleteError.value))], Failure)
        else
          RunResult(checked + confirmation + [DeleteRepository(t.owner, t.repo), Stdout(SuccessMessage(arg))], Success)
  }

  /** The body of `deleteCmd.Run`, with `os.Exit` and a normal return turned into the exit status; it meets the specification `Expected`. */
  method Run(arg: string, force: bool, env: Environment) returns (trace: seq<Effect>, exit: ExitCode)
    ensures RunResult(trace, exit) == Expected(arg, force, env)
  {
    var parsed := ParseTarget(arg);
    if parsed.None? {
      return [Stderr(InvalidFormat)], Failure;
    }
    var owner, repo := parsed.value.owner, parsed.value.repo;

    trace := [GetClient];
    if env.clientError.Some? {
      return trace + [Stderr("Error: " + env.clientError.value + "\n")], Failure;
    }

    trace := trace + [GetRepository(owner, repo)];
    if env.lookupError.Some? {
      var e := env.lookupError.value;
      if e.IsNotFound() {
        trace := trace + [Stderr(NotFoundMessage(owner, repo))];
      } else {
        trace := trace + [Stderr(CheckingMessage(e))];
      }
      return trace, Failure;
    }

    if !force {
      trace := trace + [Stdout(Prompt(arg)), ReadAnswer];
      if !IsConfirmation(env.answer) {
        return trace + [Stdout(Cancelled)], Success;
      }
    }

    trace := trace + [DeleteRepository(owner, repo)];
    if env.deleteError.Some? {
      return trace + [Stderr(DeletingMessage(env.deleteError.value))], Failure;
    }
    return trace + [Stdout(SuccessMessage(arg))], Success;
  }

  // Properties of a run

  /** The run reaches the delete call: the argument parses, a client is obtained, the repository exists, and either `--force` is set or the answer confirms. */
  predicate Proceeds(arg: string, force: bool, env: Environment)
  {
    ParseTarget(arg).Some? && env.clientError.None? && env.lookupError.None? &&
    (force || IsConfirmation(env.answer))
  }

  /**
   * The delete API is called at most once, for the parsed repository, and
   * exactly when the run proceeds.
   */
  lemma DeleteAtMostOnce(arg: string, force: bool, env: Environment)
    ensures Deletions(Expected(arg, force, env).trace) ==
              if Proceeds(arg, force, env)
              then [DeleteRepository(ParseTarget(arg).value.owner, ParseTarget(arg).value.repo)]
              else []
  {
    var trace := Expected(arg, force, env).trace;
    if !Proceeds(arg, force, env) {
      NoDeletions(trace);
    } else {
      var t := ParseTarget(arg).value;
      var checked := [GetClient, GetRepository(t.owner, t.repo)];
      var confirmation := if force then [] else [Stdout(Prompt(arg)), ReadAnswer];
      var tail := trace[|checked + confirmation|..];
      assert trace == checked + confirmation + tail;
      NoDeletions(checked + confirmation);
      DeletionsAppend(checked + confirmation, tail);
      NoDeletions(tail[1..]);
    }
  }

  /** When the delete API is called, the lookup of the same repository came before it. */
  lemma DeleteAfterLookup(arg: string, force: bool, env: Environment)
    requires Proceeds(arg, force, env)
    ensures var trace := Expected(arg, force, env).trace;
      && |trace| >= 4
      && trace[1] == GetRepository(ParseTarget(arg).value.owner, ParseTarget(arg).value.repo)
      && trace[|trace| - 2] == DeleteRepository(ParseTarget(arg).value.owner, ParseTarget(arg).value.repo)
  {
  }

  /** The answer is read exactly when the repository was found and `--force` is not set. */
  lemma PromptOnlyWithoutForce(arg: string, force: bool, env: Environment)
    ensures ReadAnswer in Expected(arg, force, env).trace <==>
              ParseTarget(arg).Some? && env.clientError.None? && env.lookupError.None? && !force
  {
    var r := Expected(arg, force, env);
    if ParseTarget(arg).Some? && env.clientError.None? && env.lookupError.None? && !force {
      assert r.trace[3] == ReadAnswer;
    }
  }

  /** A failed lookup stops the run with status 1: a 404 names the repository as typed, any other error gets the generic message. */
  lemma LookupFailure(arg: string, force: bool, env: Environment)
    requires ParseTarget(arg).Some? && env.clientError.None? && env.lookupError.Some?
    ensures var r := Expected(arg, force, env);
      && r.exit == Failure
      && r.trace[|r.trace| - 1] ==
           Stderr(if env.lookupError.value.IsNotFound()
                  then "Error: Repository '" + arg + "' not found\n"
                  else "Error checking repository: " + env.lookupError.value.Text() + "\n")
  {
    NotFoundNamesArgument(arg);
  }

  /** Without `--force`, an answer other than `y` or `yes` in any case cancels the run with status 0 and no delete call. */
  lemma DeclinedIsCancelled(arg: string, env: Environment)
    requires ParseTarget(arg).Some? && env.clientError.None? && env.lookupError.None?
    requires env.answer !in ConfirmingAnswers
    ensures Expected(arg, false, env).exit == Success
    ensures Expected(arg, false, env).trace[|Expected(arg, false, env).trace| - 1] == Stdout(Cancelled)
    ensures Deletions(Expected(arg, false, env).trace) == []
  {
    ConfirmationAnswers(env.answer);
    DeleteAtMostOnce(arg, false, env);
  }

  /** The exit status is 1 exactly when some step failed; a cancelled run exits with 0. */
  lemma ExitStatus(arg: string, force: bool, env: Environment)
    ensures Expected(arg, force, env).exit == Failure <==>
              ParseTarget(arg).None? || env.clientError.Some? || env.lookupError.Some? ||
              (Proceeds(arg, force, env) && env.deleteError.Some?)
  {
  }

  /** A successful delete ends with the success message naming the argument; a failed one with the API error. */
  lemma DeleteOutcome(arg: string, force: bool, env: Environment)
    requires Proceeds(arg, force, env)
    ensures var r := Expected(arg, force, env);
      r.trace[|r.trace| - 1] ==
        if env.deleteError.Some? then Stderr(DeletingMessage(env.deleteError.value))
        else Stdout(SuccessMessage(arg))
  {
  }

  /** With `--force` nothing is asked: the delete call follows the successful lookup directly. */
  lemma ForceSkipsPrompt(arg: string, env: Environment)
    requires ParseTarget(arg).Some? && env.clientError.None? && env.lookupError.None?
    ensures var t := ParseTarget(arg).value;
      Expected(arg, true, env).trace[..3] ==
        [GetClient, GetRepository(t.owner, t.repo), DeleteRepository(t.owner, t.repo)]
  {
  }

  /** Without `--force`, the answer "n" leaves the repository alone and exits with 0, while "y" and "YES" each lead to exactly one delete call. */
  lemma ConfirmationGate(arg: string, env: Environment)
    requires ParseTarget(arg).Some? && env.clientError.None? && env.lookupError.None?
    ensures Deletions(Expected(arg, false, env.(answer := "n")).trace) == []
    ensures Expected(arg, false, env.(answer := "n")).exit == Success
    ensures |Deletions(Expected(arg, false, env.(answer := "y")).trace)| == 1
    ensures |Deletions(Expected(arg, false, env.(answer := "YES")).trace)| == 1
  {
    ConfirmationAnswers("n");
    ConfirmationAnswers("y");
    ConfirmationAnswers("YES");
    DeleteAtMostOnce(arg, false, env.(answer := "n"));
    DeleteAtMostOnce(arg, false, env.(answer := "y"));
    DeleteAtMostOnce(arg, false, env.(answer := "YES"));
  }
}
